/** The catalog's data: the metadata record read from one DICOM file and the
    Patient -> Study -> Series -> Instance tree the indexers build from such
    records. Dictionaries are insertion-ordered (see module Assoc). */
module Hierarchy {
  import opened Assoc

  /** One file's header fields, as `readMeta` (browser) or the loop body of
      `buildIndex` (Node) extracts them. Integer fields are already defaulted
      to 0 when the tag is missing or unparsable. */
  datatype Meta = Meta(
    url: string,
    patientId: string,
    patientName: string,
    studyUID: string,
    seriesUID: string,
    sopUID: string,
    instNum: int,
    studyDate: string,
    studyDesc: string,
    seriesDesc: string,
    numberOfFrames: int)

  datatype Instance = Instance(url: string, sopUID: string, instNum: int, numberOfFrames: int)

  datatype Series = Series(seriesUID: string, seriesDesc: string, instances: seq<Instance>)

  datatype Study = Study(studyUID: string, studyDate: string, studyDesc: string, series: Assoc<Series>)

  /** `loaded` is the browser's `_loaded` flag: absent (false) in a built
      index, set once a per-patient shard has replaced `studies`. */
  datatype Patient = Patient(patientId: string, patientName: string, studies: Assoc<Study>, loaded: bool)

  /** The full snapshot `{createdAt, base, patients}`. */
  datatype Index = Index(createdAt: int, base: string, patients: Assoc<Patient>)

  /** A record is indexed only when its three instance-level UIDs are non-empty. */
  predicate HasUids(m: Meta) {
    m.studyUID != "" && m.seriesUID != "" && m.sopUID != ""
  }

  /** The instance entry a record contributes to its series. */
  function InstanceOf(m: Meta): Instance {
    Instance(m.url, m.sopUID, m.instNum, m.numberOfFrames)
  }
}
