# Clair rpmlist lister and Legacy layer extractor, in Dafny

This project models two small parts of Clair's feature extraction.

- **The `rpmlist` feature lister** (`ext/featurefmt/rpmlist/rpmlist.go`). It reads the file
  `rpmlist` from a layer's file map. That file is a JSON array of `{package, version}` records.
  The lister walks the array one element at a time and skips elements it cannot decode. It drops
  `gpg-pubkey` records. It removes every `(none):` epoch marker from the version. It keeps only
  versions that the RPM version parser accepts. It deduplicates the packages through a map keyed
  by `name#version` and returns the map's values as a slice.
- **The `Legacy` layer extractor** (`ext/imagefmt/legacy/legacy.go`). It reads a layer that is
  one JSON document. It returns the requested entries of the document's `sysinfo_clair` member as a
  file map.

Files:

- `common.dfy` (module `Common`): the byte, the file map (`tarutil.FilesMap`), Go's `error` and
  the result wrappers.
- `rpmlist.dfy` (module `RpmList`): the lister, the `strings.Replace` call that strips the epoch
  marker, and the properties of the filter, normalise and deduplicate pipeline.
- `rpmlist_test.dfy` (module `RpmListTest`): the CentOS 7 test scenario and the gpg-pubkey
  scenario.
- `legacy.dfy` (module `Legacy`): the extractor.
- `pipeline.dfy` (module `Pipeline`): extracting the lister's file from a Legacy document and then
  listing it.

How the foreign code is represented:

- The JSON tokenizer becomes the parameter `decode: seq<byte> -> TokenStream`. A `TokenStream`
  records three things: whether the opening `dec.Token()` succeeded, the outcome of each
  `dec.Decode` in the `dec.More()` loop (`Decoded(record)` or `Undecodable`), and whether the
  closing `dec.Token()` succeeded.
- The RPM version parser (`versionfmt.Valid(rpm.ParserName, …)`) becomes the parameter
  `validRpm: string -> bool`. Nothing is assumed about it.
- For the extractor, the outcome of `ioutil.ReadAll` is the parameter `layer: Result<seq<byte>>`.
  What `json.Unmarshal` makes of the bytes read is the parameter
  `unmarshal: seq<byte> -> Result<JsonLegacy>`.
- Go strings are byte strings. So the contents in the `sysinfo_clair` map are modelled as
  `seq<byte>`, and `[]byte(content)` copies them unchanged. File names, package names and versions
  are Dafny strings.
- Go's map iteration order is unspecified. `MapValues` picks the next key with `:|`, so the
  contracts fix which packages come out but not their order.

Facts the proofs establish that the code does not make obvious:

- The dedup key `name + "#" + version` is injective only when neither field contains `'#'`
  (`KeyInjective`). `("a#b", "c")` and `("a", "b#c")` collide (`KeyCollision`), and the later
  record then overwrites the earlier one (`CollectLastWins`). "Every distinct (name, version) pair
  is listed" is therefore proved only for '#'-free records (`KeptPairsAllListed`). The count
  "one package per distinct key" holds for all inputs (`CountIsDistinctKeys`).
- The epoch marker can survive normalisation: `((none):none):` becomes `(none):`
  (`MarkerCanSurvive`). Normalisation is characterised instead by `StripEpochOfJoin`: marker-free
  parts separated by markers normalise to the parts run together. `StripEpochOfEveryVersion` shows
  that every version has this form. This uses the fact that the
  marker's `(` occurs only at its start, so two occurrences never overlap.
- An unreadable closing bracket empties the result even after packages were collected
  (`StreamFeatures`, `ListFeatures`).

## Model

| member | source | states |
|---|---|---|
| `RpmList.RequiredFilenames` | ext/featurefmt/rpmlist/rpmlist.go:43-45 | The lister needs exactly one file, `rpmlist`. |
| `RpmList.ListFeatures` | ext/featurefmt/rpmlist/rpmlist.go:48-110 | The error is always nil. With no required file, or with an unreadable opening or closing bracket token, the result is empty (`Listed`, rpmlist.go:49-52; `StreamFeatures`, rpmlist.go:59-63 and 96-101). Otherwise the result holds exactly the values of the deduplicated map built over the elements, none named `gpg-pubkey`, each with a valid version, no two with the same key, and as many as the map has keys. |
| `RpmList.MapValues` | ext/featurefmt/rpmlist/rpmlist.go:103-107 | The slice holds exactly the map's values, each once, and its length is the map's size. |
| `RpmList.StripEpoch` | ext/featurefmt/rpmlist/rpmlist.go:79 | The normalised version is 7 characters shorter per marker occurrence removed by the left-to-right, non-overlapping scan. |
| `RpmList.StripEpochUnchanged` | ext/featurefmt/rpmlist/rpmlist.go:79 | A version without the marker passes through unchanged. |
| `RpmList.StripEpochAfterPart` | ext/featurefmt/rpmlist/rpmlist.go:79 | A marker-free prefix followed by a marker is kept, the marker is dropped, and normalisation continues after it. |
| `RpmList.StripEpochOfJoin` | ext/featurefmt/rpmlist/rpmlist.go:79 | Reference characterisation: marker-free parts joined by markers normalise to the parts concatenated. |
| `RpmList.SplitAtMarkersJoins` | ext/featurefmt/rpmlist/rpmlist.go:79 | Every version splits into marker-free parts that join back, with markers between them, into the version. |
| `RpmList.StripEpochOfEveryVersion` | ext/featurefmt/rpmlist/rpmlist.go:79 | Every version is made of marker-free parts joined by markers and normalises to those parts run together, so the reference characterisation covers all inputs. |
| `RpmList.StripLeadingEpoch` | ext/featurefmt/rpmlist/rpmlist.go:79 | A leading `(none):` is removed before validation. |
| `RpmList.MarkerCanSurvive` | ext/featurefmt/rpmlist/rpmlist.go:79 | `((none):none):` normalises to `(none):`, which still contains the marker. |
| `RpmList.Collect` | ext/featurefmt/rpmlist/rpmlist.go:65-94 | Every entry of packagesMap is stored under its own `name#version` key, is not named `gpg-pubkey`, and has a version the RPM validator accepts. |
| `RpmList.CollectAppend` | ext/featurefmt/rpmlist/rpmlist.go:66-93 | One more array element changes packagesMap as one pass of the loop body does. `Normalize` says what that pass makes of the element: nothing when it is undecodable, named `gpg-pubkey`, or has an invalid version after the epoch is stripped; otherwise the package with its normalised version. `Store` puts that package under its key. |
| `RpmList.CollectSound` | ext/featurefmt/rpmlist/rpmlist.go:66-93 | Every entry is some decoded element's package with its normalised version. |
| `RpmList.CollectComplete` | ext/featurefmt/rpmlist/rpmlist.go:86-93 | Every kept record (decoded, not gpg-pubkey, valid normalised version) has its key in the map. |
| `RpmList.CollectLastWins` | ext/featurefmt/rpmlist/rpmlist.go:93 | A key maps to the last kept record with that key. |
| `RpmList.CollectKeys` | ext/featurefmt/rpmlist/rpmlist.go:86-94 | The map's keys are exactly the keys of the kept records. |
| `RpmList.KeyedMapValues` | ext/featurefmt/rpmlist/rpmlist.go:104-107 | A map that stores each package under its own key has as many distinct values as keys, so the copied slice has no duplicates. |
| `RpmList.CountIsDistinctKeys` | ext/featurefmt/rpmlist/rpmlist.go:93-107 | The number of listed packages equals the number of distinct keys among kept records. |
| `RpmList.KeyInjective` | ext/featurefmt/rpmlist/rpmlist.go:93 | When no field contains `'#'`, equal keys mean equal packages. |
| `RpmList.KeyCollision` | ext/featurefmt/rpmlist/rpmlist.go:93 | `("a#b", "c")` and `("a", "b#c")` are different packages with the same key. |
| `RpmList.KeptPairsAllListed` | ext/featurefmt/rpmlist/rpmlist.go:86-107 | When kept records have no `'#'`, the listed packages are exactly the distinct kept (name, normalised version) pairs, and their number is the number of those pairs. |
| `RpmList.SkippedElementIsInert` | ext/featurefmt/rpmlist/rpmlist.go:66-84 | An element the loop skips contributes nothing, wherever it stands in the array. |
| `RpmList.UndecodableIsSkipped` | ext/featurefmt/rpmlist/rpmlist.go:66-71 | An element that fails to decode is skipped and processing continues. |
| `RpmList.GpgPubkeyIsSkipped` | ext/featurefmt/rpmlist/rpmlist.go:74-76 | A `gpg-pubkey` record is never listed, whatever its version. |
| `RpmListTest.RepeatedRecordListedOnce` | ext/featurefmt/rpmlist/rpmlist_test.go:28-42 | An array with one package twice and another once lists exactly the two packages. |
| `RpmListTest.CentOSListsTwoPackages` | ext/featurefmt/rpmlist/rpmlist_test.go:28-42 | The CentOS list gives exactly `centos-release 7-1.1503.el7.centos.2.8` and `filesystem 3.2-18.el7`. |
| `RpmListTest.GpgPubkeyOnlyListsNothing` | ext/featurefmt/rpmlist/rpmlist.go:74-76 | A list holding only `gpg-pubkey (none):abcdef-4` lists nothing. |
| `RpmListTest.TestRpmFeaturesDetector` | ext/featurefmt/rpmlist/rpmlist_test.go:46-48 | `ListFeatures` on a file map whose `rpmlist` file decodes to the CentOS list returns two packages, exactly the expected ones. |
| `Legacy.ExtractFiles` | ext/imagefmt/legacy/legacy.go:41-65 | A read or unmarshal failure returns that error with an empty map. Otherwise the error is nil and the result holds exactly the requested names present in `sysinfo_clair`, each mapped to that entry's bytes unchanged. |
| `Legacy.ProjectionDependsOnNamesOnly` | ext/imagefmt/legacy/legacy.go:58-62 | Repeating or reordering the requested names does not change the result. |
| `Legacy.ExtractRpmlistScenario` | ext/imagefmt/legacy/legacy.go:58-64 | A layer that decodes to `{"sysinfo_clair":{"rpmlist":"[]"}}` gives `{"rpmlist": "[]"}` when `rpmlist` is requested, and an empty map with no error when `other` is requested. |
| `Pipeline.ExtractThenList` | ext/imagefmt/legacy/legacy.go:58-62 | Extracting the lister's required files and listing them gives exactly the packages of the document's `rpmlist` entry, or nothing when there is no such entry. |

## Left out

- JSON decoding internals (`json.NewDecoder`, `dec.Token`, `dec.More`, `dec.Decode`, `json.Unmarshal`) are represented only by their outcomes, a finite `TokenStream`. The JSON tokenizer is not part of this model.
- The model does not capture what a syntax error inside an array element does to the `dec.More()` loop (ext/featurefmt/rpmlist/rpmlist.go:66-71). Nor does it capture a top-level value that is not an array, since the first `dec.Token()` is not checked to be `[` (rpmlist.go:59). On such input `Decode` can keep failing while `More()` keeps reporting another element, so the `continue` at rpmlist.go:70 may loop forever.
- `RpmList.ListFeatures`: covers only inputs on which the `dec.More()` loop ends. Its finite list of element outcomes cannot represent a loop that does not terminate. On the inputs above the source may not return at all, while the model always returns with a nil error.
- The RPM version parser is a parameter, because its code is not part of this model.
- Logging through logrus is left out. It has no effect on results.
- Registration in `init()` with `featurefmt.RegisterLister` and `imagefmt.RegisterExtractor` is left out. It is process-wide registry plumbing.
- `ioutil.ReadAll` on the layer stream is represented only by its outcome, the bytes read or an error.
- `ExtractFiles` assigns `data` without declaring it in this file, so `data` must be a package-level variable. The model uses a fresh local map per call and does not model state shared between calls.
- `RpmList.ListFeatures`: the order of the returned slice is left unspecified, as Go's map iteration order is.
- `featurefmt.TestLister`, `LoadFileForTest` and the test data file are not part of this model. The CentOS scenario states the test file's records directly.
