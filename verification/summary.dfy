/** The two computations the sidebar render makes on the catalog: the
    patient and study counts shown in their headers, and the split of each
    series into the static instances loaded together and the multi-frame
    (cine) instances offered one by one. */
module Summary {
  import opened Assoc
  import opened Hierarchy
  import opened Catalog
  import opened InstanceOrder

  // ---------------------------------------------------------------------
  // Counts

  function SeriesCount(st: Study): nat {
    |st.series|
  }

  /** Splitting off the last entry of a prefix of `a`. */
  lemma SumOfPrefix<V>(a: Assoc<V>, i: nat, f: V -> nat)
    requires i < |a|
    ensures SumOf(a[..i + 1], f) == SumOf(a[..i], f) + f(a[i].1)
  {
    SumOfSnoc(a[..i], a[i], f);
    assert a[..i + 1] == a[..i] + [a[i]];
  }

  lemma {:induction false} SumOfSnoc<V>(a: Assoc<V>, x: (string, V), f: V -> nat)
    ensures SumOf(a + [x], f) == SumOf(a, f) + f(x.1)
  {
    if |a| > 0 {
      assert (a + [x])[1..] == a[1..] + [x];
      SumOfSnoc(a[1..], x, f);
    }
  }

  /** The study header: its series and the instances over all of them. */
  method StudyCounts(st: Study) returns (seCount: nat, instCount: nat)
    ensures seCount == |st.series|
    ensures instCount == StudyInstances(st)
  {
    seCount := |st.series|;
    instCount := 0;
    var k := 0;
    while k < |st.series|
      invariant 0 <= k <= |st.series|
      invariant instCount == SumOf(st.series[..k], SeriesSize)
    {
      SumOfPrefix(st.series, k, SeriesSize);
      instCount := instCount + |st.series[k].1.instances|;
      k := k + 1;
    }
    assert st.series[..|st.series|] == st.series;
  }

  /** The patient header: its studies, the series over all studies, and the
      instances over all series. */
  method PatientCounts(p: Patient) returns (studyCount: nat, seriesCount: nat, instanceCount: nat)
    ensures studyCount == |p.studies|
    ensures seriesCount == SumOf(p.studies, SeriesCount)
    ensures instanceCount == PatientInstances(p)
  {
    studyCount := |p.studies|;
    seriesCount, instanceCount := 0, 0;
    var k := 0;
    while k < |p.studies|
      invariant 0 <= k <= |p.studies|
      invariant seriesCount == SumOf(p.studies[..k], SeriesCount)
      invariant instanceCount == SumOf(p.studies[..k], StudyInstances)
    {
      SumOfPrefix(p.studies, k, SeriesCount);
      SumOfPrefix(p.studies, k, StudyInstances);
      var n, m := StudyCounts(p.studies[k].1);
      seriesCount := seriesCount + n;
      instanceCount := instanceCount + m;
      k := k + 1;
    }
    assert p.studies[..|p.studies|] == p.studies;
  }

  // ---------------------------------------------------------------------
  // Static and cine instances

  /** A multi-frame instance. `!n || n <= 1` and `n && n > 1` are the two
      halves of this test for an integer `n`, 0 included. */
  predicate IsCine(x: Instance) {
    x.numberOfFrames > 1
  }

  /** The instances that are (`cine`) or are not (`!cine`) multi-frame, in
      series order. */
  function Frames(s: seq<Instance>, cine: bool): (r: seq<Instance>)
    ensures forall x :: x in r <==> x in s && IsCine(x) == cine
    ensures |r| <= |s|
  {
    if |s| == 0 then []
    else (if IsCine(s[0]) == cine then [s[0]] else []) + Frames(s[1..], cine)
  }

  function Statics(s: seq<Instance>): seq<Instance> {
    Frames(s, false)
  }

  function Cines(s: seq<Instance>): seq<Instance> {
    Frames(s, true)
  }

  /** The two halves partition the series: together they hold each instance
      exactly as often as the series does. */
  lemma {:induction false} SplitPartition(s: seq<Instance>)
    ensures multiset(Statics(s)) + multiset(Cines(s)) == multiset(s)
    ensures |Statics(s)| + |Cines(s)| == |s|
  {
    if |s| > 0 {
      SplitPartition(s[1..]);
      assert s == [s[0]] + s[1..];
    }
  }

  /** Each half keeps the series order, so a series sorted by instance
      number stays sorted in both halves. */
  lemma {:induction false} FramesSorted(s: seq<Instance>, cine: bool)
    requires Sorted(s)
    ensures Sorted(Frames(s, cine))
  {
    if |s| > 0 {
      assert Sorted(s[1..]) by {
        forall i, j | 0 <= i < j < |s[1..]| ensures s[1..][i].instNum <= s[1..][j].instNum {
          assert s[1..][i] == s[i + 1] && s[1..][j] == s[j + 1];
        }
      }
      FramesSorted(s[1..], cine);
      var t := Frames(s[1..], cine);
      if IsCine(s[0]) == cine {
        var r := [s[0]] + t;
        forall i, j | 0 <= i < j < |r| ensures r[i].instNum <= r[j].instNum {
          if i == 0 {
            assert r[j] in s[1..];
            var k :| 0 <= k < |s[1..]| && s[1..][k] == r[j];
            assert s[k + 1] == r[j];
          } else {
            assert r[i] == t[i - 1] && r[j] == t[j - 1];
          }
        }
      }
    }
  }

  /** Each half keeps the series order: splitting a concatenation splits
      each part and concatenates their halves. */
  lemma {:induction false} FramesAppend(a: seq<Instance>, b: seq<Instance>, cine: bool)
    ensures Frames(a + b, cine) == Frames(a, cine) + Frames(b, cine)
  {
    if |a| == 0 {
      assert a + b == b;
    } else {
      assert (a + b)[0] == a[0];
      assert (a + b)[1..] == a[1..] + b;
      FramesAppend(a[1..], b, cine);
    }
  }
}
