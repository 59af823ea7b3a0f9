/** The browser's `buildIndex(fileUrls, base)`: read every crawled URL's
    header, keep the records that carry their UIDs, group them and sort each
    series. Fetching and decoding a URL is the oracle `fetch`. */
module BrowserIndex {
  import opened Wrappers
  import opened Assoc
  import opened Hierarchy
  import opened Catalog
  import opened Header
  import Builder
  import FsWalk

  /** `readMeta` over the URLs, in order. */
  function ReadAll(urls: seq<string>, fetch: string -> Option<DataSet>): (rs: seq<ReadResult>)
    ensures |rs| == |urls|
    ensures forall k :: 0 <= k < |urls| ==> rs[k] == ReadMeta(urls[k], fetch(urls[k]))
  {
    if |urls| == 0 then [] else [ReadMeta(urls[0], fetch(urls[0]))] + ReadAll(urls[1..], fetch)
  }

  /** The first loop of `buildIndex`: the kept records, in URL order. */
  method CollectMeta(urls: seq<string>, fetch: string -> Option<DataSet>) returns (meta: seq<Meta>)
    ensures meta == KeptRecords(ReadAll(urls, fetch))
    ensures forall m :: m in meta ==> HasUids(m)
    ensures |meta| <= |urls|
  {
    ghost var rs := ReadAll(urls, fetch);
    meta := [];
    var i := 0;
    while i < |urls|
      invariant 0 <= i <= |urls|
      invariant meta == KeptRecords(rs[..i])
    {
      var m := ReadMeta(urls[i], fetch(urls[i]));
      assert m == rs[i];
      Builder.BuildStep(rs, i);
      if Kept(m) {
        meta := meta + [m.meta];
      }
      i := i + 1;
    }
    assert rs[..|urls|] == rs;
  }

  /** The second loop of `buildIndex`: group the kept records. */
  method GroupMeta(meta: seq<Meta>) returns (patients: Assoc<Patient>)
    ensures patients == Group(meta)
    ensures TotalInstances(patients) == |meta|
  {
    patients := [];
    var j := 0;
    while j < |meta|
      invariant 0 <= j <= |meta|
      invariant patients == Group(meta[..j])
    {
      GroupPrefix(meta, j);
      patients := AddRecord(patients, meta[j]);
      j := j + 1;
    }
    assert meta[..|meta|] == meta;
    GroupTotal(meta);
  }

  lemma GroupPrefix(meta: seq<Meta>, j: nat)
    requires j < |meta|
    ensures Group(meta[..j + 1]) == AddRecord(Group(meta[..j]), meta[j])
  {
    assert meta[..j + 1] == meta[..j] + [meta[j]];
    GroupSnoc(meta[..j], meta[j]);
  }

  /** `buildIndex` with `Date.now()` as `now`. */
  method BuildIndex(urls: seq<string>, fetch: string -> Option<DataSet>, base: string, now: int)
    returns (index: Index)
    ensures index == Index(now, base, Catalog.Catalog(KeptRecords(ReadAll(urls, fetch))))
    ensures TotalInstances(index.patients) == |KeptRecords(ReadAll(urls, fetch))| <= |urls|
    ensures WellFormed(index.patients)
  {
    var meta := CollectMeta(urls, fetch);
    var patients := GroupMeta(meta);
    index := Index(now, base, SortAll(patients));
    CatalogShape(meta);
  }

  /** The browser and the Node builder build the same catalog when the
      browser fetches, at the URL `toUrl` gives each walked file, what the
      builder reads from that file. */
  lemma IndexersAgree(files: seq<FsWalk.Path>, read: FsWalk.Path -> Option<DataSet>, base: string,
                      encode: string -> string, urls: seq<string>, fetch: string -> Option<DataSet>)
    requires |urls| == |files|
    requires forall k :: 0 <= k < |files| ==>
      urls[k] == Builder.ToUrl(base, files[k], encode) && fetch(urls[k]) == read(files[k])
    ensures Catalog.Catalog(KeptRecords(ReadAll(urls, fetch)))
         == Catalog.Catalog(KeptRecords(Builder.Reads(files, read, base, encode)))
  {
    assert ReadAll(urls, fetch) == Builder.Reads(files, read, base, encode);
  }
}
