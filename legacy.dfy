/** The "Legacy" layer extractor: the layer is one JSON document whose
    `sysinfo_clair` member maps file names to file contents; the extractor
    returns the requested entries as a file map.

    Reading the layer stream and decoding the JSON are not modelled: the
    outcome of ioutil.ReadAll is the parameter `layer`, and what json.Unmarshal
    makes of the bytes read is the parameter `unmarshal`. */
module Legacy {
  import opened Common

  /** jsonLegacy. Go strings are byte strings, so each content is the bytes
      of the document's string and `[]byte(content)` copies them unchanged. */
  datatype JsonLegacy = JsonLegacy(packages: map<string, seq<byte>>)

  /** The entries of the document whose names are requested. */
  function Projection(doc: map<string, seq<byte>>, toExtract: seq<string>): FilesMap {
    map name | name in doc && name in toExtract :: doc[name]
  }

  /** format.ExtractFiles */
  method ExtractFiles(layer: Result<seq<byte>>, unmarshal: seq<byte> -> Result<JsonLegacy>, toExtract: seq<string>)
    returns (data: FilesMap, err: Option<Error>)
    ensures layer.Err? ==> data == map[] && err == Some(layer.error)
    ensures layer.Ok? && unmarshal(layer.value).Err? ==>
              data == map[] && err == Some(unmarshal(layer.value).error)
    ensures layer.Ok? && unmarshal(layer.value).Ok? ==>
              var doc := unmarshal(layer.value).value.packages;
              && err == None
              && (forall name :: name in data <==> name in toExtract && name in doc)
              && (forall name | name in data :: data[name] == doc[name])
              && data == Projection(doc, toExtract)
  {
    data := map[];

    if layer.Err? {
      return data, Some(layer.error);
    }
    var fileContent := layer.value;

    var decoded := unmarshal(fileContent);
    if decoded.Err? {
      return data, Some(decoded.error);
    }
    var jsonData := decoded.value;

    for i := 0 to |toExtract|
      invariant forall name :: name in data <==> name in toExtract[..i] && name in jsonData.packages
      invariant forall name | name in data :: data[name] == jsonData.packages[name]
    {
      var fileToExtract := toExtract[i];
      if fileToExtract in jsonData.packages {
        data := data[fileToExtract := jsonData.packages[fileToExtract]];
      }
    }
    assert toExtract[..|toExtract|] == toExtract;
    err := None;
  }

  /** The result depends only on the set of requested names: repeating or
      reordering them changes nothing. */
  lemma ProjectionDependsOnNamesOnly(doc: map<string, seq<byte>>, w1: seq<string>, w2: seq<string>)
    requires forall name :: name in w1 <==> name in w2
    ensures Projection(doc, w1) == Projection(doc, w2)
  {
  }

  /** A layer whose bytes decode to the document
      `{"sysinfo_clair":{"rpmlist":"[]"}}`, with "rpmlist" requested and then
      "other". */
  method ExtractRpmlistScenario(layer: seq<byte>, unmarshal: seq<byte> -> Result<JsonLegacy>)
    returns (found: FilesMap, foundErr: Option<Error>, missing: FilesMap, missingErr: Option<Error>)
    requires unmarshal(layer) == Ok(JsonLegacy(map["rpmlist" := [0x5B, 0x5D]]))
    ensures found == map["rpmlist" := [0x5B, 0x5D]] && foundErr == None
    ensures missing == map[] && missingErr == None
  {
    found, foundErr := ExtractFiles(Ok(layer), unmarshal, ["rpmlist"]);
    missing, missingErr := ExtractFiles(Ok(layer), unmarshal, ["other"]);
    assert "rpmlist" in found;
  }
}
