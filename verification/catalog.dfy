/** The hierarchical catalog shared by both indexers: grouping kept records
    into Patient -> Study -> Series by upsert, appending one instance per
    record, then stable-sorting every series by instance number
    (bluelight/scripts/indexer.js `buildIndex`, tools/build-dicom-index.js
    `buildIndex`). */
module Catalog {
  import opened Wrappers
  import opened Assoc
  import opened Hierarchy
  import opened InstanceOrder

  // ---------------------------------------------------------------------
  // Grouping

  function NewPatient(m: Meta): Patient {
    Patient(m.patientId, m.patientName, [], false)
  }

  function NewStudy(m: Meta): Study {
    Study(m.studyUID, m.studyDate, m.studyDesc, [])
  }

  function NewSeries(m: Meta): Series {
    Series(m.seriesUID, m.seriesDesc, [])
  }

  /** One pass of the grouping loop: at each level the node stored under the
      record's key is reused as is, or created from this record when absent;
      then the record's instance is appended to its series. So the first
      record for a key fixes that node's attributes. */
  function AddRecord(ps: Assoc<Patient>, m: Meta): Assoc<Patient> {
    var p := Find(ps, m.patientId).GetOr(NewPatient(m));
    var st := Find(p.studies, m.studyUID).GetOr(NewStudy(m));
    var se := Find(st.series, m.seriesUID).GetOr(NewSeries(m));
    var se' := se.(instances := se.instances + [InstanceOf(m)]);
    var st' := st.(series := Put(st.series, m.seriesUID, se'));
    Put(ps, m.patientId, p.(studies := Put(p.studies, m.studyUID, st')))
  }

  /** The grouping loop over the kept records, in order. */
  function Group(ms: seq<Meta>): Assoc<Patient> {
    if |ms| == 0 then [] else AddRecord(Group(ms[..|ms| - 1]), ms[|ms| - 1])
  }

  lemma GroupSnoc(ms: seq<Meta>, m: Meta)
    ensures Group(ms + [m]) == AddRecord(Group(ms), m)
  {
    assert (ms + [m])[..|ms|] == ms;
  }

  // ---------------------------------------------------------------------
  // Sorting every series (the triple loop after grouping)

  function SortSeries(se: Series): Series {
    se.(instances := SortByInstNum(se.instances))
  }

  function SortStudy(st: Study): Study {
    st.(series := MapValues(st.series, SortSeries))
  }

  function SortPatient(p: Patient): Patient {
    p.(studies := MapValues(p.studies, SortStudy))
  }

  function SortAll(ps: Assoc<Patient>): Assoc<Patient> {
    MapValues(ps, SortPatient)
  }

  /** The patient map both indexers produce from the kept records. */
  function Catalog(ms: seq<Meta>): Assoc<Patient> {
    SortAll(Group(ms))
  }

  // ---------------------------------------------------------------------
  // Lookups by path

  function PatientAt(ps: Assoc<Patient>, pid: string): Option<Patient> {
    Find(ps, pid)
  }

  function StudyAt(ps: Assoc<Patient>, pid: string, st: string): Option<Study> {
    match Find(ps, pid)
    case None => None
    case Some(p) => Find(p.studies, st)
  }

  function SeriesAt(ps: Assoc<Patient>, pid: string, st: string, se: string): Option<Series> {
    match StudyAt(ps, pid, st)
    case None => None
    case Some(s) => Find(s.series, se)
  }

  function InstancesAt(ps: Assoc<Patient>, pid: string, st: string, se: string): seq<Instance> {
    match SeriesAt(ps, pid, st, se)
    case None => []
    case Some(s) => s.instances
  }

  // ---------------------------------------------------------------------
  // Reference definitions in terms of the record list

  /** The records that belong under a patient, a study of a patient, or a
      series of a study of a patient. */
  datatype Scope =
    | PatientScope(pid: string)
    | StudyScope(pid: string, st: string)
    | SeriesScope(pid: string, st: string, se: string)

  predicate InScope(m: Meta, sc: Scope) {
    match sc
    case PatientScope(pid) => m.patientId == pid
    case StudyScope(pid, st) => m.patientId == pid && m.studyUID == st
    case SeriesScope(pid, st, se) => m.patientId == pid && m.studyUID == st && m.seriesUID == se
  }

  /** The first record in scope. */
  function FirstIn(ms: seq<Meta>, sc: Scope): (r: Option<Meta>)
    ensures r.Some? ==> r.value in ms && InScope(r.value, sc)
    ensures r.None? ==> forall i :: 0 <= i < |ms| ==> !InScope(ms[i], sc)
  {
    if |ms| == 0 then None
    else
      var f := FirstIn(ms[..|ms| - 1], sc);
      if f.Some? then f
      else if InScope(ms[|ms| - 1], sc) then Some(ms[|ms| - 1])
      else None
  }

  /** The instances of the records in a series' scope, in record order. */
  function Select(ms: seq<Meta>, pid: string, st: string, se: string): seq<Instance> {
    if |ms| == 0 then []
    else
      Select(ms[..|ms| - 1], pid, st, se)
      + (if InScope(ms[|ms| - 1], SeriesScope(pid, st, se)) then [InstanceOf(ms[|ms| - 1])] else [])
  }

  // ---------------------------------------------------------------------
  // One grouping step

  lemma AddRecordPatient(ps: Assoc<Patient>, m: Meta, pid: string)
    ensures var r := PatientAt(AddRecord(ps, m), pid);
      && (r.Some? <==> PatientAt(ps, pid).Some? || pid == m.patientId)
      && (PatientAt(ps, pid).Some? ==>
            r.value.patientId == PatientAt(ps, pid).value.patientId
            && r.value.patientName == PatientAt(ps, pid).value.patientName
            && r.value.loaded == PatientAt(ps, pid).value.loaded)
      && (PatientAt(ps, pid).None? && pid == m.patientId ==>
            r.value.patientId == m.patientId && r.value.patientName == m.patientName && !r.value.loaded)
  {
  }

  lemma AddRecordStudy(ps: Assoc<Patient>, m: Meta, pid: string, st: string)
    ensures var r := StudyAt(AddRecord(ps, m), pid, st);
      && (r.Some? <==> StudyAt(ps, pid, st).Some? || InScope(m, StudyScope(pid, st)))
      && (StudyAt(ps, pid, st).Some? ==>
            r.value.studyUID == StudyAt(ps, pid, st).value.studyUID
            && r.value.studyDate == StudyAt(ps, pid, st).value.studyDate
            && r.value.studyDesc == StudyAt(ps, pid, st).value.studyDesc)
      && (StudyAt(ps, pid, st).None? && InScope(m, StudyScope(pid, st)) ==>
            r.value.studyUID == m.studyUID && r.value.studyDate == m.studyDate
            && r.value.studyDesc == m.studyDesc)
  {
    var ps' := AddRecord(ps, m);
    var p := Find(ps, m.patientId).GetOr(NewPatient(m));
    var s0 := Find(p.studies, m.studyUID).GetOr(NewStudy(m));
    var e := Find(s0.series, m.seriesUID).GetOr(NewSeries(m));
    var e' := e.(instances := e.instances + [InstanceOf(m)]);
    var s' := s0.(series := Put(s0.series, m.seriesUID, e'));
    var p' := p.(studies := Put(p.studies, m.studyUID, s'));
    assert ps' == Put(ps, m.patientId, p');
    if pid != m.patientId {
      assert Find(ps', pid) == Find(ps, pid);
    } else {
      assert Find(ps', pid) == Some(p');
      if st != m.studyUID {
        assert StudyAt(ps', pid, st) == Find(p.studies, st);
        assert StudyAt(ps, pid, st) == Find(p.studies, st);
      } else {
        assert StudyAt(ps', pid, st) == Some(s');
        assert StudyAt(ps, pid, st).Some? ==> StudyAt(ps, pid, st) == Some(s0);
      }
    }
  }

  lemma AddRecordSeries(ps: Assoc<Patient>, m: Meta, pid: string, st: string, se: string)
    ensures var r := SeriesAt(AddRecord(ps, m), pid, st, se);
      && (r.Some? <==> SeriesAt(ps, pid, st, se).Some? || InScope(m, SeriesScope(pid, st, se)))
      && (SeriesAt(ps, pid, st, se).Some? ==>
            r.value.seriesUID == SeriesAt(ps, pid, st, se).value.seriesUID
            && r.value.seriesDesc == SeriesAt(ps, pid, st, se).value.seriesDesc)
      && (SeriesAt(ps, pid, st, se).None? && InScope(m, SeriesScope(pid, st, se)) ==>
            r.value.seriesUID == m.seriesUID && r.value.seriesDesc == m.seriesDesc)
      && InstancesAt(AddRecord(ps, m), pid, st, se)
         == InstancesAt(ps, pid, st, se)
            + (if InScope(m, SeriesScope(pid, st, se)) then [InstanceOf(m)] else [])
  {
    AddRecordSeriesCase(ps, m, pid, st, se);
  }

  /** The series a grouping step leaves at a path: the old one, the record's
      series with the instance appended, or a new one. */
  lemma AddRecordSeriesCase(ps: Assoc<Patient>, m: Meta, pid: string, st: string, se: string)
    ensures var old0 := SeriesAt(ps, pid, st, se);
      var e := old0.GetOr(NewSeries(m));
      SeriesAt(AddRecord(ps, m), pid, st, se)
      == if InScope(m, SeriesScope(pid, st, se))
         then Some(e.(instances := e.instances + [InstanceOf(m)]))
         else old0
  {
    var ps' := AddRecord(ps, m);
    var p := Find(ps, m.patientId).GetOr(NewPatient(m));
    var s0 := Find(p.studies, m.studyUID).GetOr(NewStudy(m));
    var e := Find(s0.series, m.seriesUID).GetOr(NewSeries(m));
    var e' := e.(instances := e.instances + [InstanceOf(m)]);
    var s' := s0.(series := Put(s0.series, m.seriesUID, e'));
    var p' := p.(studies := Put(p.studies, m.studyUID, s'));
    assert ps' == Put(ps, m.patientId, p');
    if pid != m.patientId {
      assert Find(ps', pid) == Find(ps, pid);
    } else {
      assert Find(ps', pid) == Some(p');
      if st != m.studyUID {
        assert StudyAt(ps', pid, st) == Find(p.studies, st);
        assert StudyAt(ps, pid, st) == Find(p.studies, st);
      } else {
        assert StudyAt(ps', pid, st) == Some(s');
        assert SeriesAt(ps, pid, st, se) == Find(s0.series, se);
        if se != m.seriesUID {
          assert SeriesAt(ps', pid, st, se) == Find(s0.series, se);
        } else {
          assert SeriesAt(ps', pid, st, se) == Some(e');
        }
      }
    }
  }

  // ---------------------------------------------------------------------
  // What grouping produces

  /** A patient node exists iff some kept record names it, and its name is
      the one carried by the first such record. */
  lemma {:induction false} GroupPatient(ms: seq<Meta>, pid: string)
    ensures var r := PatientAt(Group(ms), pid);
      var f := FirstIn(ms, PatientScope(pid));
      && (r.Some? <==> f.Some?)
      && (r.Some? ==> r.value.patientId == pid && r.value.patientName == f.value.patientName && !r.value.loaded)
  {
    if |ms| > 0 {
      GroupPatient(ms[..|ms| - 1], pid);
      AddRecordPatient(Group(ms[..|ms| - 1]), ms[|ms| - 1], pid);
    }
  }

  /** A study node exists iff some kept record names that patient and study;
      its date and description come from the first such record. */
  lemma {:induction false} GroupStudy(ms: seq<Meta>, pid: string, st: string)
    ensures var r := StudyAt(Group(ms), pid, st);
      var f := FirstIn(ms, StudyScope(pid, st));
      && (r.Some? <==> f.Some?)
      && (r.Some? ==> r.value.studyUID == st && r.value.studyDate == f.value.studyDate
                      && r.value.studyDesc == f.value.studyDesc)
  {
    if |ms| > 0 {
      GroupStudy(ms[..|ms| - 1], pid, st);
      AddRecordStudy(Group(ms[..|ms| - 1]), ms[|ms| - 1], pid, st);
    }
  }

  /** A series node exists iff some kept record names that patient, study and
      series; its description comes from the first such record, and its
      instances are exactly those records' instances in record order: one
      instance per record, no SOP de-duplication. */
  lemma {:induction false} GroupSeries(ms: seq<Meta>, pid: string, st: string, se: string)
    ensures var r := SeriesAt(Group(ms), pid, st, se);
      var f := FirstIn(ms, SeriesScope(pid, st, se));
      && (r.Some? <==> f.Some?)
      && (r.Some? ==> r.value.seriesUID == se && r.value.seriesDesc == f.value.seriesDesc)
      && InstancesAt(Group(ms), pid, st, se) == Select(ms, pid, st, se)
  {
    if |ms| > 0 {
      GroupSeries(ms[..|ms| - 1], pid, st, se);
      AddRecordSeries(Group(ms[..|ms| - 1]), ms[|ms| - 1], pid, st, se);
    }
  }

  // ---------------------------------------------------------------------
  // Well-formedness: keys unique at every level, each node carries its key

  predicate SeriesOk(key: string, se: Series) {
    se.seriesUID == key
  }

  predicate StudyOk(key: string, st: Study) {
    && st.studyUID == key
    && UniqueKeys(st.series)
    && forall e :: e in st.series ==> SeriesOk(e.0, e.1)
  }

  predicate PatientOk(key: string, p: Patient) {
    && p.patientId == key
    && UniqueKeys(p.studies)
    && forall e :: e in p.studies ==> StudyOk(e.0, e.1)
  }

  predicate WellFormed(ps: Assoc<Patient>) {
    && UniqueKeys(ps)
    && forall e :: e in ps ==> PatientOk(e.0, e.1)
  }

  lemma AddRecordWellFormed(ps: Assoc<Patient>, m: Meta)
    requires WellFormed(ps)
    ensures WellFormed(AddRecord(ps, m))
  {
    var p := Find(ps, m.patientId).GetOr(NewPatient(m));
    var st := Find(p.studies, m.studyUID).GetOr(NewStudy(m));
    var se := Find(st.series, m.seriesUID).GetOr(NewSeries(m));
    var se' := se.(instances := se.instances + [InstanceOf(m)]);
    var st' := st.(series := Put(st.series, m.seriesUID, se'));
    var p' := p.(studies := Put(p.studies, m.studyUID, st'));
    assert PatientOk(m.patientId, p);
    assert StudyOk(m.studyUID, st);
    assert SeriesOk(m.seriesUID, se');
    PutUnique(st.series, m.seriesUID, se');
    PutEntries(st.series, m.seriesUID, se');
    assert StudyOk(m.studyUID, st');
    PutUnique(p.studies, m.studyUID, st');
    PutEntries(p.studies, m.studyUID, st');
    assert PatientOk(m.patientId, p');
    PutUnique(ps, m.patientId, p');
    PutEntries(ps, m.patientId, p');
  }

  /** Upserting never duplicates a node: every level of a grouped catalog has
      unique keys and each node is stored under its own identifier. */
  lemma {:induction false} GroupWellFormed(ms: seq<Meta>)
    ensures WellFormed(Group(ms))
  {
    if |ms| > 0 {
      GroupWellFormed(ms[..|ms| - 1]);
      AddRecordWellFormed(Group(ms[..|ms| - 1]), ms[|ms| - 1]);
    }
  }

  // ---------------------------------------------------------------------
  // Instance totals

  function SeriesSize(se: Series): nat {
    |se.instances|
  }

  function StudyInstances(st: Study): nat {
    SumOf(st.series, SeriesSize)
  }

  function PatientInstances(p: Patient): nat {
    SumOf(p.studies, StudyInstances)
  }

  function TotalInstances(ps: Assoc<Patient>): nat {
    SumOf(ps, PatientInstances)
  }

  lemma AddRecordTotal(ps: Assoc<Patient>, m: Meta)
    ensures TotalInstances(AddRecord(ps, m)) == TotalInstances(ps) + 1
  {
    var p := Find(ps, m.patientId).GetOr(NewPatient(m));
    var st := Find(p.studies, m.studyUID).GetOr(NewStudy(m));
    var se := Find(st.series, m.seriesUID).GetOr(NewSeries(m));
    var se' := se.(instances := se.instances + [InstanceOf(m)]);
    var st' := st.(series := Put(st.series, m.seriesUID, se'));
    var p' := p.(studies := Put(p.studies, m.studyUID, st'));
    SumOfPut(st.series, m.seriesUID, se', SeriesSize);
    assert StudyInstances(st') == StudyInstances(st) + 1;
    SumOfPut(p.studies, m.studyUID, st', StudyInstances);
    assert PatientInstances(p') == PatientInstances(p) + 1;
    SumOfPut(ps, m.patientId, p', PatientInstances);
  }

  /** Every kept record becomes exactly one instance. */
  lemma {:induction false} GroupTotal(ms: seq<Meta>)
    ensures TotalInstances(Group(ms)) == |ms|
  {
    if |ms| > 0 {
      GroupTotal(ms[..|ms| - 1]);
      AddRecordTotal(Group(ms[..|ms| - 1]), ms[|ms| - 1]);
    }
  }

  // ---------------------------------------------------------------------
  // Sorting keeps the tree and reorders each series

  lemma SortAllAt(ps: Assoc<Patient>, pid: string, st: string, se: string)
    ensures PatientAt(SortAll(ps), pid) == (if PatientAt(ps, pid).Some? then Some(SortPatient(PatientAt(ps, pid).value)) else None)
    ensures StudyAt(SortAll(ps), pid, st) == (if StudyAt(ps, pid, st).Some? then Some(SortStudy(StudyAt(ps, pid, st).value)) else None)
    ensures SeriesAt(SortAll(ps), pid, st, se) == (if SeriesAt(ps, pid, st, se).Some? then Some(SortSeries(SeriesAt(ps, pid, st, se).value)) else None)
    ensures InstancesAt(SortAll(ps), pid, st, se) == SortByInstNum(InstancesAt(ps, pid, st, se))
  {
    FindMapValues(ps, SortPatient, pid);
    if PatientAt(ps, pid).Some? {
      var p := PatientAt(ps, pid).value;
      FindMapValues(p.studies, SortStudy, st);
      if StudyAt(ps, pid, st).Some? {
        FindMapValues(StudyAt(ps, pid, st).value.series, SortSeries, se);
      }
    }
  }

  lemma SortAllKeepsTotal(ps: Assoc<Patient>)
    ensures TotalInstances(SortAll(ps)) == TotalInstances(ps)
  {
    forall st: Study ensures StudyInstances(SortStudy(st)) == StudyInstances(st) {
      SumOfMapValues(st.series, SortSeries, SeriesSize);
    }
    forall p: Patient ensures PatientInstances(SortPatient(p)) == PatientInstances(p) {
      SumOfMapValues(p.studies, SortStudy, StudyInstances);
    }
    SumOfMapValues(ps, SortPatient, PatientInstances);
  }

  lemma SortStudyOk(key: string, st: Study)
    requires StudyOk(key, st)
    ensures StudyOk(key, SortStudy(st))
  {
    var ss := MapValues(st.series, SortSeries);
    assert Keys(ss) == Keys(st.series);
    forall f | f in ss ensures SeriesOk(f.0, f.1) {
      var j :| 0 <= j < |ss| && ss[j] == f;
      assert st.series[j] in st.series;
    }
  }

  lemma SortPatientOk(key: string, p: Patient)
    requires PatientOk(key, p)
    ensures PatientOk(key, SortPatient(p))
  {
    var ss := MapValues(p.studies, SortStudy);
    assert Keys(ss) == Keys(p.studies);
    forall f | f in ss ensures StudyOk(f.0, f.1) {
      var j :| 0 <= j < |ss| && ss[j] == f;
      assert p.studies[j] in p.studies;
      SortStudyOk(p.studies[j].0, p.studies[j].1);
    }
  }

  lemma SortAllWellFormed(ps: Assoc<Patient>)
    requires WellFormed(ps)
    ensures WellFormed(SortAll(ps))
  {
    var r := SortAll(ps);
    assert Keys(r) == Keys(ps);
    forall e | e in r ensures PatientOk(e.0, e.1) {
      var i :| 0 <= i < |r| && r[i] == e;
      assert ps[i] in ps;
      SortPatientOk(ps[i].0, ps[i].1);
    }
  }

  // ---------------------------------------------------------------------
  // The catalog of a record list

  /** Each series of the catalog holds exactly the instances of its records,
      sorted non-decreasing by instance number, ties in record order. */
  lemma CatalogSeries(ms: seq<Meta>, pid: string, st: string, se: string, k: int)
    ensures var got := InstancesAt(Catalog(ms), pid, st, se);
      && Sorted(got)
      && multiset(got) == multiset(Select(ms, pid, st, se))
      && WithInstNum(got, k) == WithInstNum(Select(ms, pid, st, se), k)
  {
    GroupSeries(ms, pid, st, se);
    SortAllAt(Group(ms), pid, st, se);
    SortStable(Select(ms, pid, st, se), k);
  }

  /** Node attributes come from the first record for that node. */
  lemma CatalogFirstWins(ms: seq<Meta>, pid: string, st: string, se: string)
    ensures var p := PatientAt(Catalog(ms), pid);
      var f := FirstIn(ms, PatientScope(pid));
      (p.Some? <==> f.Some?) && (p.Some? ==> p.value.patientName == f.value.patientName)
    ensures var s := StudyAt(Catalog(ms), pid, st);
      var f := FirstIn(ms, StudyScope(pid, st));
      (s.Some? <==> f.Some?)
      && (s.Some? ==> s.value.studyDate == f.value.studyDate && s.value.studyDesc == f.value.studyDesc)
    ensures var r := SeriesAt(Catalog(ms), pid, st, se);
      var f := FirstIn(ms, SeriesScope(pid, st, se));
      (r.Some? <==> f.Some?) && (r.Some? ==> r.value.seriesDesc == f.value.seriesDesc)
  {
    GroupPatient(ms, pid);
    GroupStudy(ms, pid, st);
    GroupSeries(ms, pid, st, se);
    SortAllAt(Group(ms), pid, st, se);
  }

  /** The catalog holds one instance per record and is well formed. */
  lemma CatalogShape(ms: seq<Meta>)
    ensures TotalInstances(Catalog(ms)) == |ms|
    ensures WellFormed(Catalog(ms))
  {
    GroupTotal(ms);
    SortAllKeepsTotal(Group(ms));
    GroupWellFormed(ms);
    SortAllWellFormed(Group(ms));
  }
}
