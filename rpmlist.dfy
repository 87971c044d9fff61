/** The "rpmlist" feature lister: reads the JSON list of installed RPM
    packages found in a layer's "rpmlist" file and returns the packages with
    a valid RPM version, one entry per name#version key.

    The JSON tokenizer is not modelled: what it does with the file's bytes is
    a parameter `decode`, giving whether the opening token could be read, the
    outcome of decoding each array element in turn, and whether the closing
    token could be read. The RPM version parser is the parameter `validRpm`. */
module RpmList {
  import opened Common

  /** The single file this lister needs. */
  const RequiredFile: string := "rpmlist"

  /** Package name used by RPM to store GPG keys; never a real package. */
  const GpgPubkey: string := "gpg-pubkey"

  /** The epoch written by `rpm -qa` for packages that have none. */
  const EpochMarker: string := "(none):"

  /** Separator between name and version in the deduplication key. */
  const KeySeparator: string := "#"

  /** jsonFeature: one element of the JSON array. */
  datatype JsonFeature = JsonFeature(package: string, version: string)

  /** database.Feature */
  datatype Feature = Feature(name: string)

  /** database.FeatureVersion */
  datatype FeatureVersion = FeatureVersion(feature: Feature, version: string)

  /** The outcome of `dec.Decode` on one array element. */
  datatype Element = Decoded(feature: JsonFeature) | Undecodable

  /** What the JSON decoder makes of the file: the outcome of the opening
      `dec.Token()`, the elements visited by the `dec.More()` loop, and the
      outcome of the closing `dec.Token()`. */
  datatype TokenStream = TokenStream(openOk: bool, elements: seq<Element>, closeOk: bool)

  /** lister.RequiredFilenames */
  function RequiredFilenames(): (names: seq<string>)
    ensures forall name :: name in names <==> name == RequiredFile
  {
    [RequiredFile]
  }

  // ---------------------------------------------------------------------
  // Version normalisation: strings.Replace(version, "(none):", "", -1)
  // ---------------------------------------------------------------------

  /** Whether the epoch marker starts at position `i` of `s`. */
  predicate MarkerAt(s: string, i: nat) {
    i + |EpochMarker| <= |s| && s[i..i + |EpochMarker|] == EpochMarker
  }

  /** Whether `s` holds the epoch marker at some position. */
  ghost predicate ContainsMarker(s: string) {
    exists i: nat :: MarkerAt(s, i)
  }

  /** The number of markers removed by a left-to-right scan that resumes
      after each match (the occurrences Go's strings.Replace replaces). */
  function MarkerCount(s: string): nat
    decreases |s|
  {
    if |s| < |EpochMarker| then 0
    else if MarkerAt(s, 0) then 1 + MarkerCount(s[|EpochMarker|..])
    else MarkerCount(s[1..])
  }

  /** Removes every non-overlapping occurrence of the epoch marker, scanning
      left to right, as strings.Replace(s, "(none):", "", -1) does. */
  function StripEpoch(s: string): (r: string)
    ensures |r| == |s| - 7 * MarkerCount(s)
    decreases |s|
  {
    if |s| < |EpochMarker| then s
    else if MarkerAt(s, 0) then StripEpoch(s[|EpochMarker|..])
    else [s[0]] + StripEpoch(s[1..])
  }

  /** The marker's '(' occurs only at its first position, so no proper
      suffix of the marker is a prefix of it. */
  lemma MarkerHasNoBorder(t: nat)
    requires 0 < t < |EpochMarker|
    ensures EpochMarker[t] != EpochMarker[0]
  {
  }

  /** Dropping the first character of a marker-free string leaves it
      marker-free. */
  lemma TailHasNoMarker(s: string)
    requires s != [] && !ContainsMarker(s)
    ensures !ContainsMarker(s[1..])
  {
    forall i: nat ensures !MarkerAt(s[1..], i) {
      assert !MarkerAt(s, i + 1);
      if i + |EpochMarker| <= |s[1..]| {
        assert s[1..][i..i + |EpochMarker|] == s[i + 1..i + 1 + |EpochMarker|];
      }
    }
  }

  /** A version without the marker is passed through unchanged. */
  lemma {:induction false} StripEpochUnchanged(s: string)
    requires !ContainsMarker(s)
    ensures StripEpoch(s) == s
    decreases |s|
  {
    if |s| >= |EpochMarker| {
      assert !MarkerAt(s, 0);
      TailHasNoMarker(s);
      StripEpochUnchanged(s[1..]);
    }
  }

  /** No marker starts inside a non-empty marker-free part that a marker
      follows: it would overlap the following marker, whose '(' occurs only
      at its start. */
  lemma NoMarkerAtPartStart(p: string, rest: string)
    requires p != [] && !ContainsMarker(p)
    ensures !MarkerAt(p + EpochMarker + rest, 0)
  {
    var x := p + EpochMarker + rest;
    if |p| >= |EpochMarker| {
      assert !MarkerAt(p, 0);
      assert x[0..|EpochMarker|] == p[0..|EpochMarker|];
    } else if MarkerAt(x, 0) {
      assert x[0..|EpochMarker|][|p|] == x[|p|] == EpochMarker[0];
      MarkerHasNoBorder(|p|);
    }
  }

  /** A string that does not start with the marker keeps its first
      character, and normalisation goes on with the rest. */
  lemma StripEpochStep(x: string)
    requires x != [] && !MarkerAt(x, 0)
    ensures StripEpoch(x) == [x[0]] + StripEpoch(x[1..])
  {
    if |x| < |EpochMarker| {
      StripEpochUnchanged(x[1..]);
    }
  }

  /** Stripping `p + marker + rest`, where `p` holds no marker, keeps `p`,
      drops the marker and goes on with `rest`. */
  lemma {:induction false} StripEpochAfterPart(p: string, rest: string)
    requires !ContainsMarker(p)
    ensures StripEpoch(p + EpochMarker + rest) == p + StripEpoch(rest)
    decreases |p|
  {
    var x := p + EpochMarker + rest;
    if p == [] {
      assert x == EpochMarker + rest;
      StripLeadingEpoch(rest);
    } else {
      assert StripEpoch(x) == [p[0]] + StripEpoch(x[1..]) by {
        NoMarkerAtPartStart(p, rest);
        StripEpochStep(x);
      }
      assert StripEpoch(x[1..]) == p[1..] + StripEpoch(rest) by {
        TailHasNoMarker(p);
        assert x[1..] == p[1..] + EpochMarker + rest;
        StripEpochAfterPart(p[1..], rest);
      }
      assert [p[0]] + (p[1..] + StripEpoch(rest)) == p + StripEpoch(rest);
    }
  }

  /** The parts joined with the marker between each two. */
  function JoinWithMarker(parts: seq<string>): string
    requires |parts| > 0
  {
    if |parts| == 1 then parts[0] else parts[0] + EpochMarker + JoinWithMarker(parts[1..])
  }

  /** The parts run together. */
  function Concat(parts: seq<string>): string {
    if parts == [] then [] else parts[0] + Concat(parts[1..])
  }

  /** Reference characterisation of the replacement: a version made of
      marker-free parts separated by markers normalises to the parts run
      together. */
  lemma {:induction false} StripEpochOfJoin(parts: seq<string>)
    requires |parts| > 0
    requires forall i | 0 <= i < |parts| :: !ContainsMarker(parts[i])
    ensures StripEpoch(JoinWithMarker(parts)) == Concat(parts)
  {
    if |parts| == 1 {
      StripEpochUnchanged(parts[0]);
      assert Concat(parts[1..]) == [];
    } else {
      StripEpochAfterPart(parts[0], JoinWithMarker(parts[1..]));
      StripEpochOfJoin(parts[1..]);
    }
  }

  /** The marker-free parts between the markers the scan removes. */
  function SplitAtMarkers(s: string): (parts: seq<string>)
    ensures |parts| > 0
    decreases |s|
  {
    if |s| < |EpochMarker| then [s]
    else if MarkerAt(s, 0) then [[]] + SplitAtMarkers(s[|EpochMarker|..])
    else
      var rest := SplitAtMarkers(s[1..]);
      [[s[0]] + rest[0]] + rest[1..]
  }

  /** Putting back a first character that starts no marker keeps a
      marker-free part marker-free. */
  lemma ConsHasNoMarker(c: char, p: string, t: string)
    requires !ContainsMarker(p) && !MarkerAt([c] + p + t, 0)
    ensures !ContainsMarker([c] + p)
  {
    var x, s := [c] + p, [c] + p + t;
    forall i: nat ensures !MarkerAt(x, i) {
      if i == 0 && |EpochMarker| <= |x| {
        assert x[..|EpochMarker|] == s[..|EpochMarker|];
      } else if 0 < i && i + |EpochMarker| <= |x| {
        assert !MarkerAt(p, i - 1);
        assert x[i..i + |EpochMarker|] == p[i - 1..i - 1 + |EpochMarker|];
      }
    }
  }

  /** `parts` are marker-free and join with markers into `s`. */
  ghost predicate PartsOf(parts: seq<string>, s: string) {
    && |parts| > 0
    && JoinWithMarker(parts) == s
    && forall i | 0 <= i < |parts| :: !ContainsMarker(parts[i])
  }

  /** A leading marker starts a new, empty part. */
  lemma PartsAfterMarker(rest: seq<string>, s: string)
    requires MarkerAt(s, 0) && PartsOf(rest, s[|EpochMarker|..])
    ensures PartsOf([[]] + rest, s)
  {
    var parts := [[]] + rest;
    assert parts[1..] == rest;
    assert JoinWithMarker(parts) == s by {
      assert s == EpochMarker + s[|EpochMarker|..];
    }
    assert !ContainsMarker(parts[0]) by {
      assert forall i: nat :: !MarkerAt(parts[0], i);
    }
    assert forall i | 1 <= i < |parts| :: parts[i] == rest[i - 1];
  }

  /** A first character that starts no marker joins the first part. */
  lemma PartsAfterChar(rest: seq<string>, s: string)
    requires s != [] && !MarkerAt(s, 0) && PartsOf(rest, s[1..])
    ensures PartsOf([[s[0]] + rest[0]] + rest[1..], s)
  {
    var parts := [[s[0]] + rest[0]] + rest[1..];
    var t := if |rest| == 1 then [] else EpochMarker + JoinWithMarker(rest[1..]);
    assert s[1..] == rest[0] + t;
    assert JoinWithMarker(parts) == s by {
      assert parts[1..] == rest[1..];
      assert s == [s[0]] + s[1..];
    }
    assert !ContainsMarker(parts[0]) by {
      assert s == [s[0]] + rest[0] + t;
      ConsHasNoMarker(s[0], rest[0], t);
    }
    assert forall i | 1 <= i < |parts| :: parts[i] == rest[i];
  }

  /** Every version is made of marker-free parts joined by markers: the
      parts join back to the version, and no part holds the marker. */
  lemma {:induction false} SplitAtMarkersJoins(s: string)
    ensures PartsOf(SplitAtMarkers(s), s)
    decreases |s|
  {
    if |s| < |EpochMarker| {
      assert forall i: nat :: !MarkerAt(s, i);
      assert !ContainsMarker(SplitAtMarkers(s)[0]);
    } else if MarkerAt(s, 0) {
      SplitAtMarkersJoins(s[|EpochMarker|..]);
      PartsAfterMarker(SplitAtMarkers(s[|EpochMarker|..]), s);
    } else {
      SplitAtMarkersJoins(s[1..]);
      PartsAfterChar(SplitAtMarkers(s[1..]), s);
    }
  }

  /** The characterisation covers every version: each is made of marker-free
      parts joined by markers and normalises to those parts run together. */
  lemma StripEpochOfEveryVersion(s: string)
    ensures exists parts: seq<string> :: PartsOf(parts, s) && StripEpoch(s) == Concat(parts)
  {
    var parts := SplitAtMarkers(s);
    SplitAtMarkersJoins(s);
    StripEpochOfJoin(parts);
  }

  /** A leading epoch marker is removed before the version is validated. */
  lemma StripLeadingEpoch(v: string)
    ensures StripEpoch(EpochMarker + v) == StripEpoch(v)
  {
    assert (EpochMarker + v)[..|EpochMarker|] == EpochMarker;
    assert (EpochMarker + v)[|EpochMarker|..] == v;
  }

  /** The marker can survive normalisation: removing an inner occurrence
      joins the text around it into a new one. */
  lemma MarkerCanSurvive()
    ensures StripEpoch("((none):none):") == EpochMarker
    ensures ContainsMarker(StripEpoch("((none):none):"))
  {
    var s, rest := "((none):none):", "none):";
    assert StripEpoch(s) == [s[0]] + StripEpoch(s[1..]) by {
      assert s[1] != EpochMarker[1];
      StripEpochStep(s);
    }
    assert StripEpoch(s[1..]) == rest by {
      assert s[1..] == EpochMarker + rest;
      StripLeadingEpoch(rest);
    }
    assert [s[0]] + rest == EpochMarker;
    assert MarkerAt(EpochMarker, 0);
  }

  // ---------------------------------------------------------------------
  // Filtering, normalisation and deduplication
  // ---------------------------------------------------------------------

  /** The key under which packagesMap stores a package. */
  function Key(fv: FeatureVersion): string {
    fv.feature.name + KeySeparator + fv.version
  }

  /** What the loop body makes of one element: nothing for an undecodable
      element, a gpg-pubkey record or an invalid version; otherwise the
      package with its normalised version. */
  function Normalize(e: Element, validRpm: string -> bool): Option<FeatureVersion> {
    match e
    case Undecodable => None
    case Decoded(f) =>
      if f.package == GpgPubkey then None
      else
        var version := StripEpoch(f.version);
        if !validRpm(version) then None
        else Some(FeatureVersion(Feature(f.package), version))
  }

  /** The promise on every listed package. */
  predicate Listable(fv: FeatureVersion, validRpm: string -> bool) {
    fv.feature.name != GpgPubkey && validRpm(fv.version)
  }

  /** packagesMap after one pass of the loop body, given what the body made
      of the element. */
  function Store(packagesMap: map<string, FeatureVersion>, kept: Option<FeatureVersion>): map<string, FeatureVersion> {
    match kept
    case None => packagesMap
    case Some(fv) => packagesMap[Key(fv) := fv]
  }

  /** packagesMap after the loop has visited `es`. */
  function Collect(es: seq<Element>, validRpm: string -> bool): (m: map<string, FeatureVersion>)
    ensures forall k | k in m :: Key(m[k]) == k && Listable(m[k], validRpm)
  {
    if es == [] then map[]
    else Store(Collect(es[..|es| - 1], validRpm), Normalize(es[|es| - 1], validRpm))
  }

  /** One more element adds what the loop body makes of it. */
  lemma CollectAppend(es: seq<Element>, e: Element, validRpm: string -> bool)
    ensures Collect(es + [e], validRpm) == Store(Collect(es, validRpm), Normalize(e, validRpm))
  {
    assert (es + [e])[..|es|] == es;
  }

  /** The packages a stream lists: none when either bracket token is
      unreadable, whatever the elements held. */
  function StreamFeatures(stream: TokenStream, validRpm: string -> bool): map<string, FeatureVersion> {
    if !stream.openOk || !stream.closeOk then map[] else Collect(stream.elements, validRpm)
  }

  /** The packages ListFeatures lists for a file map, keyed as packagesMap. */
  function Listed(files: FilesMap, decode: seq<byte> -> TokenStream, validRpm: string -> bool): map<string, FeatureVersion> {
    if RequiredFile !in files then map[] else StreamFeatures(decode(files[RequiredFile]), validRpm)
  }

  /** lister.ListFeatures */
  method ListFeatures(files: FilesMap, decode: seq<byte> -> TokenStream, validRpm: string -> bool)
    returns (packages: seq<FeatureVersion>, err: Option<Error>)
    ensures err == None
    ensures (forall name | name in RequiredFilenames() :: name !in files) ==> packages == []
    ensures RequiredFile in files && (!decode(files[RequiredFile]).openOk || !decode(files[RequiredFile]).closeOk)
            ==> packages == []
    ensures forall fv :: fv in packages <==> fv in Listed(files, decode, validRpm).Values
    ensures forall fv | fv in packages :: fv.feature.name != GpgPubkey && validRpm(fv.version)
    ensures forall i, j | 0 <= i < j < |packages| :: Key(packages[i]) != Key(packages[j])
    ensures |packages| == |Listed(files, decode, validRpm)|
  {
    err := None;
    if RequiredFile !in files {
      return [], err;
    }
    var f := files[RequiredFile];
    var packagesMap: map<string, FeatureVersion> := map[];
    var stream := decode(f);
    if !stream.openOk {
      return [], err;
    }

    var i := 0;
    while i < |stream.elements|
      invariant 0 <= i <= |stream.elements|
      invariant packagesMap == Collect(stream.elements[..i], validRpm)
    {
      var element := stream.elements[i];
      i := i + 1;
      assert stream.elements[..i][..i - 1] == stream.elements[..i - 1];
      if element.Undecodable? {
        continue;
      }
      var feature := element.feature;
      if feature.package == GpgPubkey {
        continue;
      }
      var version := StripEpoch(feature.version);
      if !validRpm(version) {
        continue;
      }
      var pkg := FeatureVersion(Feature(feature.package), version);
      packagesMap := packagesMap[Key(pkg) := pkg];
    }
    assert stream.elements[..i] == stream.elements;

    if !stream.closeOk {
      return [], err;
    }

    packages := MapValues(packagesMap);
  }

  /** Copies the values of packagesMap into a slice, in the map's (unspecified)
      iteration order. */
  method MapValues(packagesMap: map<string, FeatureVersion>) returns (packages: seq<FeatureVersion>)
    requires forall k | k in packagesMap :: Key(packagesMap[k]) == k
    ensures forall fv :: fv in packages <==> fv in packagesMap.Values
    ensures forall i, j | 0 <= i < j < |packages| :: Key(packages[i]) != Key(packages[j])
    ensures |packages| == |packagesMap|
  {
    packages := [];
    var remaining := packagesMap.Keys;
    while remaining != {}
      invariant remaining <= packagesMap.Keys
      invariant |packages| + |remaining| == |packagesMap|
      invariant forall j | 0 <= j < |packages| ::
        Key(packages[j]) in packagesMap && Key(packages[j]) !in remaining && packagesMap[Key(packages[j])] == packages[j]
      invariant forall k | k in packagesMap && k !in remaining :: packagesMap[k] in packages
      invariant forall j, l | 0 <= j < l < |packages| :: Key(packages[j]) != Key(packages[l])
      decreases remaining
    {
      var k :| k in remaining;
      packages := packages + [packagesMap[k]];
      remaining := remaining - {k};
    }
  }

  // ---------------------------------------------------------------------
  // Properties of the pipeline
  // ---------------------------------------------------------------------

  /** The keys of the records the loop keeps. */
  function KeptKeys(es: seq<Element>, validRpm: string -> bool): set<string> {
    set i | 0 <= i < |es| && Normalize(es[i], validRpm).Some? :: Key(Normalize(es[i], validRpm).value)
  }

  /** The records the loop keeps, with their normalised versions. */
  function KeptFeatures(es: seq<Element>, validRpm: string -> bool): set<FeatureVersion> {
    set i | 0 <= i < |es| && Normalize(es[i], validRpm).Some? :: Normalize(es[i], validRpm).value
  }

  /** Every package in packagesMap is the normalised form of some element. */
  lemma {:induction false} CollectSound(es: seq<Element>, validRpm: string -> bool, k: string)
    requires k in Collect(es, validRpm)
    ensures exists i | 0 <= i < |es| :: Normalize(es[i], validRpm) == Some(Collect(es, validRpm)[k])
  {
    var n := |es| - 1;
    var last := Normalize(es[n], validRpm);
    if last.Some? && k == Key(last.value) {
      assert Normalize(es[n], validRpm) == Some(Collect(es, validRpm)[k]);
    } else {
      CollectSound(es[..n], validRpm, k);
      var i :| 0 <= i < n && Normalize(es[..n][i], validRpm) == Some(Collect(es[..n], validRpm)[k]);
      assert es[..n][i] == es[i];
    }
  }

  /** Every kept record's key is in packagesMap. */
  lemma {:induction false} CollectComplete(es: seq<Element>, validRpm: string -> bool, i: nat)
    requires i < |es| && Normalize(es[i], validRpm).Some?
    ensures Key(Normalize(es[i], validRpm).value) in Collect(es, validRpm)
  {
    var n := |es| - 1;
    if i < n {
      assert es[..n][i] == es[i];
      CollectComplete(es[..n], validRpm, i);
    }
  }

  /** A key maps to the last kept record with that key: a later record
      overwrites an earlier one that shares its key. */
  lemma {:induction false} CollectLastWins(es: seq<Element>, validRpm: string -> bool, i: nat, fv: FeatureVersion)
    requires i < |es| && Normalize(es[i], validRpm) == Some(fv)
    requires forall j | i < j < |es| :: Normalize(es[j], validRpm).None? || Key(Normalize(es[j], validRpm).value) != Key(fv)
    ensures Key(fv) in Collect(es, validRpm) && Collect(es, validRpm)[Key(fv)] == fv
  {
    var n := |es| - 1;
    if i < n {
      assert es[..n][i] == es[i];
      forall j | i < j < |es[..n]|
        ensures Normalize(es[..n][j], validRpm).None? || Key(Normalize(es[..n][j], validRpm).value) != Key(fv)
      {
        assert es[..n][j] == es[j];
      }
      CollectLastWins(es[..n], validRpm, i, fv);
    }
  }

  /** The keys of packagesMap are exactly the keys of the kept records. */
  lemma {:induction false} CollectKeys(es: seq<Element>, validRpm: string -> bool)
    ensures Collect(es, validRpm).Keys == KeptKeys(es, validRpm)
  {
    var m := Collect(es, validRpm);
    forall k | k in KeptKeys(es, validRpm) ensures k in m {
      var i :| 0 <= i < |es| && Normalize(es[i], validRpm).Some? && Key(Normalize(es[i], validRpm).value) == k;
      CollectComplete(es, validRpm, i);
    }
    forall k | k in m ensures k in KeptKeys(es, validRpm) {
      CollectSound(es, validRpm, k);
      var i :| 0 <= i < |es| && Normalize(es[i], validRpm) == Some(m[k]);
      assert Key(m[k]) == k;
    }
  }

  /** A map that stores each value under its own key has as many distinct
      values as keys. */
  lemma {:induction false} KeyedMapValues(m: map<string, FeatureVersion>)
    requires forall k | k in m :: Key(m[k]) == k
    ensures |m.Values| == |m|
    decreases |m|
  {
    if m != map[] {
      var k :| k in m;
      var rest := m - {k};
      assert m.Values == rest.Values + {m[k]} by {
        forall v | v in m.Values ensures v in rest.Values + {m[k]} {
          var k' :| k' in m && m[k'] == v;
          if k' != k { assert k' in rest; }
        }
      }
      assert m[k] !in rest.Values by {
        forall k' | k' in rest ensures rest[k'] != m[k] {
          assert Key(rest[k']) == k' != k;
        }
      }
      assert m.Keys == rest.Keys + {k};
      KeyedMapValues(rest);
    }
  }

  /** The listed packages number the distinct keys of the kept records. */
  lemma CountIsDistinctKeys(es: seq<Element>, validRpm: string -> bool)
    ensures |Collect(es, validRpm)| == |KeptKeys(es, validRpm)|
    ensures |Collect(es, validRpm).Values| == |KeptKeys(es, validRpm)|
  {
    CollectKeys(es, validRpm);
    KeyedMapValues(Collect(es, validRpm));
  }

  /** Neither field contains the key separator '#'. */
  predicate HashFree(fv: FeatureVersion) {
    '#' !in fv.feature.name && '#' !in fv.version
  }

  /** The position of the first '#' in `s`, or |s| if it has none. */
  function FirstHash(s: string): nat {
    if s == [] || s[0] == '#' then 0 else 1 + FirstHash(s[1..])
  }

  /** In a key whose name has no '#', the first '#' is the separator. */
  lemma {:induction false} FirstHashOfKey(name: string, version: string)
    requires '#' !in name
    ensures FirstHash(name + KeySeparator + version) == |name|
  {
    if name != [] {
      assert (name + KeySeparator + version)[1..] == name[1..] + KeySeparator + version;
      FirstHashOfKey(name[1..], version);
    }
  }

  /** Without '#' in names and versions the key identifies the package. */
  lemma KeyInjective(a: FeatureVersion, b: FeatureVersion)
    requires HashFree(a) && HashFree(b)
    requires Key(a) == Key(b)
    ensures a == b
  {
    var na, nb := a.feature.name, b.feature.name;
    FirstHashOfKey(na, a.version);
    FirstHashOfKey(nb, b.version);
    assert |na| == |nb|;
    assert na == Key(a)[..|na|] && nb == Key(b)[..|nb|];
    assert a.version == Key(a)[|na| + 1..] && b.version == Key(b)[|nb| + 1..];
  }

  /** With '#' allowed the key is not injective: these two packages collide. */
  lemma KeyCollision()
    ensures Key(FeatureVersion(Feature("a#b"), "c")) == Key(FeatureVersion(Feature("a"), "b#c"))
    ensures FeatureVersion(Feature("a#b"), "c") != FeatureVersion(Feature("a"), "b#c")
  {
    assert Key(FeatureVersion(Feature("a#b"), "c")) == "a#b#c";
    assert Key(FeatureVersion(Feature("a"), "b#c")) == "a#b#c";
  }

  /** When no kept record has '#' in its fields, the listed packages are
      exactly the distinct kept (name, version) pairs. */
  lemma KeptPairsAllListed(es: seq<Element>, validRpm: string -> bool)
    requires forall fv | fv in KeptFeatures(es, validRpm) :: HashFree(fv)
    ensures Collect(es, validRpm).Values == KeptFeatures(es, validRpm)
    ensures |Collect(es, validRpm)| == |KeptFeatures(es, validRpm)|
  {
    var m := Collect(es, validRpm);
    forall fv | fv in KeptFeatures(es, validRpm) ensures fv in m.Values {
      var i :| 0 <= i < |es| && Normalize(es[i], validRpm) == Some(fv);
      CollectComplete(es, validRpm, i);
      CollectSound(es, validRpm, Key(fv));
      var j :| 0 <= j < |es| && Normalize(es[j], validRpm) == Some(m[Key(fv)]);
      assert m[Key(fv)] in KeptFeatures(es, validRpm);
      KeyInjective(fv, m[Key(fv)]);
    }
    forall fv | fv in m.Values ensures fv in KeptFeatures(es, validRpm) {
      var k :| k in m && m[k] == fv;
      CollectSound(es, validRpm, k);
      var i :| 0 <= i < |es| && Normalize(es[i], validRpm) == Some(m[k]);
    }
    KeyedMapValues(m);
  }

  /** An element the loop skips (undecodable, gpg-pubkey, invalid version)
      contributes nothing, wherever it stands. */
  lemma {:induction false} SkippedElementIsInert(a: seq<Element>, e: Element, b: seq<Element>, validRpm: string -> bool)
    requires Normalize(e, validRpm).None?
    ensures Collect(a + [e] + b, validRpm) == Collect(a + b, validRpm)
    decreases |b|
  {
    if b == [] {
      assert a + [e] + b == a + [e] && a + b == a;
      CollectAppend(a, e, validRpm);
    } else {
      var b', last := b[..|b| - 1], b[|b| - 1];
      assert a + [e] + b == (a + [e] + b') + [last];
      assert a + b == (a + b') + [last];
      CollectAppend(a + [e] + b', last, validRpm);
      CollectAppend(a + b', last, validRpm);
      SkippedElementIsInert(a, e, b', validRpm);
    }
  }

  /** An undecodable element is skipped and decoding carries on. */
  lemma UndecodableIsSkipped(a: seq<Element>, b: seq<Element>, validRpm: string -> bool)
    ensures Collect(a + [Undecodable] + b, validRpm) == Collect(a + b, validRpm)
  {
    SkippedElementIsInert(a, Undecodable, b, validRpm);
  }

  /** A gpg-pubkey record is never listed, whatever its version. */
  lemma GpgPubkeyIsSkipped(a: seq<Element>, version: string, b: seq<Element>, validRpm: string -> bool)
    ensures Collect(a + [Decoded(JsonFeature(GpgPubkey, version))] + b, validRpm) == Collect(a + b, validRpm)
  {
    SkippedElementIsInert(a, Decoded(JsonFeature(GpgPubkey, version)), b, validRpm);
  }
}
