/** How the two components compose: a host pipeline extracts the files the
    lister requires from a Legacy layer and hands the file map to the lister. */
module Pipeline {
  import opened Common
  import RpmList
  import Legacy

  /** Extracting the lister's required files from a document and listing
      them gives exactly the packages of the document's "rpmlist" entry, and
      nothing when the document has none. */
  lemma ExtractThenList(doc: map<string, seq<byte>>, decode: seq<byte> -> RpmList.TokenStream, validRpm: string -> bool)
    ensures RpmList.RequiredFile in doc ==>
              RpmList.Listed(Legacy.Projection(doc, RpmList.RequiredFilenames()), decode, validRpm)
              == RpmList.StreamFeatures(decode(doc[RpmList.RequiredFile]), validRpm)
    ensures RpmList.RequiredFile !in doc ==>
              RpmList.Listed(Legacy.Projection(doc, RpmList.RequiredFilenames()), decode, validRpm) == map[]
  {
    var files := Legacy.Projection(doc, RpmList.RequiredFilenames());
    assert RpmList.RequiredFile in RpmList.RequiredFilenames();
    if RpmList.RequiredFile in doc {
      assert files[RpmList.RequiredFile] == doc[RpmList.RequiredFile];
    }
  }
}
