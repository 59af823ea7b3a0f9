/** Tolerant header reading: the decoded DICOM data set is an oracle (the
    `dicomParser.parseDicom` result), and `getTag`/`get` and `getInt` turn each
    lookup that throws or yields a falsy value into the field's zero value. */
module Header {
  import opened Wrappers
  import opened Hierarchy

  /** What one accessor call on a data set does: throw, return a falsy
      non-value (`undefined`, `null`, `NaN`), or return a value (which may
      itself be falsy: `''` or `0`). */
  datatype Probe<T> = Throws | Missing | Yields(value: T)

  /** The two accessor views of one element: `ds.string(tag)` and
      `ds.intString(tag)`. */
  datatype Element = Element(text: Probe<string>, number: Probe<int>)

  /** A decoded tag table. A tag that is not present answers `undefined` to
      both accessors. */
  type DataSet = map<string, Element>

  // Tags read by both indexers, (group,element) of the DICOM data dictionary.
  const PatientID := "x00100020"
  const PatientName := "x00100010"
  const StudyInstanceUID := "x0020000d"
  const SeriesInstanceUID := "x0020000e"
  const SOPInstanceUID := "x00080018"
  const InstanceNumber := "x00200013"
  const NumberOfFrames := "x00280008"
  const StudyDate := "x00080020"
  const StudyDescription := "x00081030"
  const SeriesDescription := "x0008103e"

  function ElementAt(ds: DataSet, tag: string): Element {
    if tag in ds then ds[tag] else Element(Missing, Missing)
  }

  /** `getTag` / `get`: the element's text, or the empty string when the
      accessor throws or answers a falsy value. */
  function GetTag(ds: DataSet, tag: string): (r: string)
    ensures r == "" <==> ElementAt(ds, tag).text in {Throws, Missing, Yields("")}
    ensures r != "" ==> ElementAt(ds, tag).text == Yields(r)
  {
    match ElementAt(ds, tag).text
    case Yields(s) => s
    case _ => ""
  }

  /** `getInt`: the element's integer, or 0 when the accessor throws or
      answers a falsy value. */
  function GetInt(ds: DataSet, tag: string): (r: int)
    ensures r == 0 <==> ElementAt(ds, tag).number in {Throws, Missing, Yields(0)}
    ensures r != 0 ==> ElementAt(ds, tag).number == Yields(r)
  {
    match ElementAt(ds, tag).number
    case Yields(n) => n
    case _ => 0
  }

  /** The outcome of reading one file: its record, or the failure that
      stopped the fetch or the decode. */
  datatype ReadResult = Read(meta: Meta) | ReadFailed(url: string, error: string)

  /** `readMeta`: `parsed` is the decoded data set, `None` when fetching the
      bytes or decoding them failed. Each field is read independently, so a
      decoded file always yields a record. */
  function ReadMeta(url: string, parsed: Option<DataSet>): (r: ReadResult)
    ensures r.ReadFailed? <==> parsed.None?
    ensures r.Read? ==> r.meta.url == url
    ensures r.Read? ==> (
              && r.meta.studyUID == GetTag(parsed.value, StudyInstanceUID)
              && r.meta.seriesUID == GetTag(parsed.value, SeriesInstanceUID)
              && r.meta.sopUID == GetTag(parsed.value, SOPInstanceUID))
    ensures r.Read? ==> (
              && r.meta.patientId == GetTag(parsed.value, PatientID)
              && r.meta.patientName == GetTag(parsed.value, PatientName)
              && r.meta.instNum == GetInt(parsed.value, InstanceNumber)
              && r.meta.studyDate == GetTag(parsed.value, StudyDate)
              && r.meta.studyDesc == GetTag(parsed.value, StudyDescription)
              && r.meta.seriesDesc == GetTag(parsed.value, SeriesDescription)
              && r.meta.numberOfFrames == GetInt(parsed.value, NumberOfFrames))
  {
    match parsed
    case None => ReadFailed(url, "read failed")
    case Some(ds) =>
      Read(Meta(
        url,
        GetTag(ds, PatientID),
        GetTag(ds, PatientName),
        GetTag(ds, StudyInstanceUID),
        GetTag(ds, SeriesInstanceUID),
        GetTag(ds, SOPInstanceUID),
        GetInt(ds, InstanceNumber),
        GetTag(ds, StudyDate),
        GetTag(ds, StudyDescription),
        GetTag(ds, SeriesDescription),
        GetInt(ds, NumberOfFrames)))
  }

  /** The filter in front of grouping: no read error, and all three
      instance-level UIDs non-empty. */
  predicate Kept(r: ReadResult) {
    r.Read? && HasUids(r.meta)
  }

  /** The records that reach the catalog, in read order. */
  function KeptRecords(rs: seq<ReadResult>): (ms: seq<Meta>)
    ensures |ms| <= |rs|
    ensures forall m :: m in ms <==> Read(m) in rs && HasUids(m)
  {
    if |rs| == 0 then []
    else
      var rest := KeptRecords(rs[..|rs| - 1]);
      assert rs == rs[..|rs| - 1] + [rs[|rs| - 1]];
      rest + (if Kept(rs[|rs| - 1]) then [rs[|rs| - 1].meta] else [])
  }

  lemma KeptRecordsSnoc(rs: seq<ReadResult>, r: ReadResult)
    ensures KeptRecords(rs + [r]) == KeptRecords(rs) + (if Kept(r) then [r.meta] else [])
  {
    assert (rs + [r])[..|rs|] == rs;
  }
}
