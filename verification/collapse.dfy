/** `setAllCollapsed(flag)`: the expand/collapse state the sidebar keeps
    for every patient and study of the cached index. Patients are keyed by
    their identifier, studies by `pid + "|" + studyUID`; the render reads a
    missing key as expanded. */
module Collapse {
  import opened Wrappers
  import opened Assoc
  import opened Hierarchy
  import opened IndexCache

  datatype CollapseState = CollapseState(patients: Assoc<bool>, studies: Assoc<bool>)

  /** The key of a study's collapse flag. */
  function StudyKey(pid: string, studyUid: string): string {
    pid + "|" + studyUid
  }

  /** The render's test `!!collapseState.patients[pid]` (and likewise for
      studies): a missing key reads as not collapsed. */
  function Collapsed(flags: Assoc<bool>, key: string): bool {
    var f := Find(flags, key);
    f.Some? && f.value
  }

  /** The study keys of one patient, in study order. */
  function StudyKeys(pid: string, studies: Assoc<Study>): (ks: seq<string>)
    ensures |ks| == |studies|
    ensures forall j :: 0 <= j < |studies| ==> ks[j] == StudyKey(pid, studies[j].0)
  {
    if |studies| == 0 then [] else [StudyKey(pid, studies[0].0)] + StudyKeys(pid, studies[1..])
  }

  /** Sets every key of `keys` to `flag`, in order. */
  function PutAll(acc: Assoc<bool>, keys: seq<string>, flag: bool): (r: Assoc<bool>)
    ensures forall k :: Find(r, k) == if k in keys then Some(flag) else Find(acc, k)
    decreases |keys|
  {
    if |keys| == 0 then acc
    else
      var r := PutAll(Put(acc, keys[0], flag), keys[1..], flag);
      assert forall k :: k in keys <==> k == keys[0] || k in keys[1..];
      r
  }

  /** `key` is the collapse key of some study of some patient of `ps`. */
  predicate StudyShown(ps: Assoc<Patient>, key: string) {
    exists i, j :: 0 <= i < |ps| && 0 <= j < |ps[i].1.studies| && key == StudyKey(ps[i].0, ps[i].1.studies[j].0)
  }

  /** The state after the first `i` patients. */
  ghost predicate Covered(ps: Assoc<Patient>, i: nat, st: CollapseState, flag: bool)
    requires i <= |ps|
  {
    && (forall pid :: Find(st.patients, pid) == if pid in Keys(ps)[..i] then Some(flag) else None)
    && (forall key :: Find(st.studies, key) == if StudyShown(ps[..i], key) then Some(flag) else None)
  }

  /** The studies of one more patient extend the shown keys by its own. */
  lemma ShownSnoc(ps: Assoc<Patient>, i: nat, key: string)
    requires i < |ps|
    ensures StudyShown(ps[..i + 1], key) <==> StudyShown(ps[..i], key) || key in StudyKeys(ps[i].0, ps[i].1.studies)
  {
    var ks := StudyKeys(ps[i].0, ps[i].1.studies);
    if StudyShown(ps[..i + 1], key) {
      var a, b :| 0 <= a < i + 1 && 0 <= b < |ps[..i + 1][a].1.studies|
                  && key == StudyKey(ps[..i + 1][a].0, ps[..i + 1][a].1.studies[b].0);
      if a == i {
        assert ks[b] == key;
      } else {
        assert ps[..i][a] == ps[a];
      }
    }
    if key in ks {
      var b :| 0 <= b < |ks| && ks[b] == key;
      assert ps[..i + 1][i] == ps[i];
    }
    if StudyShown(ps[..i], key) {
      var a, b :| 0 <= a < i && 0 <= b < |ps[..i][a].1.studies|
                  && key == StudyKey(ps[..i][a].0, ps[..i][a].1.studies[b].0);
      assert ps[..i + 1][a] == ps[a];
    }
  }

  /** One iteration of the loop over the patients. */
  lemma CoveredStep(ps: Assoc<Patient>, i: nat, st: CollapseState, flag: bool)
    requires i < |ps|
    requires Covered(ps, i, st, flag)
    ensures Covered(ps, i + 1, CollapseState(Put(st.patients, ps[i].0, flag),
                                             PutAll(st.studies, StudyKeys(ps[i].0, ps[i].1.studies), flag)), flag)
  {
    assert Keys(ps)[..i + 1] == Keys(ps)[..i] + [ps[i].0];
    forall key
      ensures StudyShown(ps[..i + 1], key) <==> StudyShown(ps[..i], key) || key in StudyKeys(ps[i].0, ps[i].1.studies)
    {
      ShownSnoc(ps, i, key);
    }
  }

  /** `setAllCollapsed(flag)` with `base` the configured base path: no state
      when nothing is cached; otherwise every patient and every study of the
      cached index, and nothing else, is set to `flag`. */
  method SetAllCollapsed(store: Store, base: string, flag: bool) returns (r: Option<CollapseState>)
    ensures r.None? <==> base !in store
    ensures r.Some? ==> forall pid ::
      Find(r.value.patients, pid) == if pid in Keys(store[base].patients) then Some(flag) else None
    ensures r.Some? ==> forall key ::
      Find(r.value.studies, key) == if StudyShown(store[base].patients, key) then Some(flag) else None
  {
    var cache := LoadCache(store, base);
    if cache.None? {
      return None;
    }
    var ps := cache.value.patients;
    var st := CollapseState([], []);
    var i := 0;
    while i < |ps|
      invariant 0 <= i <= |ps|
      invariant Covered(ps, i, st, flag)
    {
      CoveredStep(ps, i, st, flag);
      st := CollapseState(Put(st.patients, ps[i].0, flag),
                          PutAll(st.studies, StudyKeys(ps[i].0, ps[i].1.studies), flag));
      i := i + 1;
    }
    assert ps[..|ps|] == ps && Keys(ps)[..|ps|] == Keys(ps);
    r := Some(st);
  }

  /** After `setAllCollapsed(flag)` every patient and study the render draws
      from the cached index reads as `flag`. */
  lemma RenderSeesFlag(store: Store, base: string, flag: bool, st: CollapseState, i: nat, j: nat)
    requires base in store
    requires i < |store[base].patients| && j < |store[base].patients[i].1.studies|
    requires forall pid ::
      Find(st.patients, pid) == if pid in Keys(store[base].patients) then Some(flag) else None
    requires forall key ::
      Find(st.studies, key) == if StudyShown(store[base].patients, key) then Some(flag) else None
    ensures var p := store[base].patients[i];
      Collapsed(st.patients, p.0) == flag && Collapsed(st.studies, StudyKey(p.0, p.1.studies[j].0)) == flag
  {
    var ps := store[base].patients;
    assert Keys(ps)[i] == ps[i].0;
    assert StudyShown(ps, StudyKey(ps[i].0, ps[i].1.studies[j].0));
  }
}
