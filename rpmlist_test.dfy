/** The scenarios of the rpmlist lister's test: a CentOS 7 package list in
    which one package appears twice, and a list holding only a GPG key. */
module RpmListTest {
  import opened Common
  import opened RpmList

  const CentosRelease: FeatureVersion := FeatureVersion(Feature("centos-release"), "7-1.1503.el7.centos.2.8")
  const Filesystem: FeatureVersion := FeatureVersion(Feature("filesystem"), "3.2-18.el7")

  /** The CentOS list: centos-release twice, then filesystem. */
  function CentOSElements(): seq<Element> {
    [ Decoded(JsonFeature("centos-release", "7-1.1503.el7.centos.2.8")),
      Decoded(JsonFeature("centos-release", "7-1.1503.el7.centos.2.8")),
      Decoded(JsonFeature("filesystem", "3.2-18.el7")) ]
  }

  /** A string without '(' cannot hold the epoch marker. */
  lemma NoParenNoMarker(s: string)
    requires '(' !in s
    ensures !ContainsMarker(s)
  {
    forall i: nat ensures !MarkerAt(s, i) {
      if i + |EpochMarker| <= |s| {
        assert s[i..i + |EpochMarker|][0] == s[i];
      }
    }
  }

  /** A record with a real package name and a valid version free of '('
      is kept as it is. */
  lemma KeptAsIs(package: string, version: string, validRpm: string -> bool)
    requires package != GpgPubkey && '(' !in version && validRpm(version)
    ensures Normalize(Decoded(JsonFeature(package, version)), validRpm) == Some(FeatureVersion(Feature(package), version))
  {
    NoParenNoMarker(version);
    StripEpochUnchanged(version);
  }

  /** A list holding one package twice and another once lists each of the
      two packages once. */
  lemma {:induction false} RepeatedRecordListedOnce(a: JsonFeature, b: JsonFeature, fa: FeatureVersion, fb: FeatureVersion,
                                                    validRpm: string -> bool)
    requires a.package != GpgPubkey && '(' !in a.version && validRpm(a.version)
    requires b.package != GpgPubkey && '(' !in b.version && validRpm(b.version)
    requires fa == FeatureVersion(Feature(a.package), a.version) && fb == FeatureVersion(Feature(b.package), b.version)
    requires Key(fa) != Key(fb)
    ensures Collect([Decoded(a), Decoded(a), Decoded(b)], validRpm).Values == {fa, fb}
    ensures |Collect([Decoded(a), Decoded(a), Decoded(b)], validRpm)| == 2
  {
    var es := [Decoded(a), Decoded(a), Decoded(b)];
    KeptAsIs(a.package, a.version, validRpm);
    KeptAsIs(b.package, b.version, validRpm);
    assert Collect(es[..1], validRpm) == map[Key(fa) := fa] by {
      assert es[..1] == [] + [Decoded(a)];
      CollectAppend([], Decoded(a), validRpm);
    }
    assert Collect(es[..2], validRpm) == map[Key(fa) := fa] by {
      assert es[..2] == es[..1] + [Decoded(a)];
      CollectAppend(es[..1], Decoded(a), validRpm);
    }
    assert Collect(es, validRpm) == map[Key(fa) := fa, Key(fb) := fb] by {
      assert es == es[..2] + [Decoded(b)];
      CollectAppend(es[..2], Decoded(b), validRpm);
    }
    var m := Collect(es, validRpm);
    assert m.Values == {fa, fb} by {
      assert m[Key(fa)] == fa && m[Key(fb)] == fb;
      forall v | v in m.Values ensures v == fa || v == fb {
        var k :| k in m && m[k] == v;
      }
    }
  }

  /** Neither CentOS version can hold the epoch marker. */
  lemma CentOSVersionsHaveNoEpoch()
    ensures '(' !in CentosRelease.version && '(' !in Filesystem.version
  {
  }

  /** The duplicated centos-release record is listed once: for the stream
      the decoder yields on the CentOS file, exactly two packages remain. */
  lemma CentOSListsTwoPackages(stream: TokenStream, validRpm: string -> bool)
    requires stream == TokenStream(true, CentOSElements(), true)
    requires validRpm(CentosRelease.version) && validRpm(Filesystem.version)
    ensures StreamFeatures(stream, validRpm).Values == {CentosRelease, Filesystem}
    ensures |StreamFeatures(stream, validRpm)| == 2
  {
    var centos := JsonFeature("centos-release", "7-1.1503.el7.centos.2.8");
    var filesystem := JsonFeature("filesystem", "3.2-18.el7");
    assert stream.elements == [Decoded(centos), Decoded(centos), Decoded(filesystem)];
    CentOSVersionsHaveNoEpoch();
    assert Key(CentosRelease)[0] != Key(Filesystem)[0];
    RepeatedRecordListedOnce(centos, filesystem, CentosRelease, Filesystem, validRpm);
  }

  /** A list holding only a gpg-pubkey record lists nothing. */
  lemma GpgPubkeyOnlyListsNothing(validRpm: string -> bool)
    ensures StreamFeatures(TokenStream(true, [Decoded(JsonFeature("gpg-pubkey", "(none):abcdef-4"))], true), validRpm) == map[]
  {
    var es := [Decoded(JsonFeature("gpg-pubkey", "(none):abcdef-4"))];
    assert es[..0] == [];
  }

  /** TestRpmFeaturesDetector: the lister on a file map whose "rpmlist"
      file decodes to the CentOS list returns the two expected packages. */
  method TestRpmFeaturesDetector(content: seq<byte>, decode: seq<byte> -> TokenStream, validRpm: string -> bool)
    returns (packages: seq<FeatureVersion>)
    requires decode(content) == TokenStream(true, CentOSElements(), true)
    requires validRpm(CentosRelease.version) && validRpm(Filesystem.version)
    ensures |packages| == 2
    ensures forall fv :: fv in packages <==> fv == CentosRelease || fv == Filesystem
  {
    var files: FilesMap := map[RequiredFile := content];
    var err;
    packages, err := ListFeatures(files, decode, validRpm);
    CentOSListsTwoPackages(decode(files[RequiredFile]), validRpm);
  }
}
