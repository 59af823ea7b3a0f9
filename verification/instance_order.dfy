/** Ordering of a series' instances. Both indexers sort each series with a
    comparator on instance number that treats a missing number as 0, and
    `Array.prototype.sort` is stable, so the result is the stable sort by
    instance number. The header reader already defaults a missing number to
    0, so the key here is simply `instNum`. */
module InstanceOrder {
  import opened Hierarchy

  /** Non-decreasing by instance number, stated pairwise. */
  predicate Sorted(s: seq<Instance>) {
    forall i, j :: 0 <= i < j < |s| ==> s[i].instNum <= s[j].instNum
  }

  /** Non-decreasing by instance number, stated on neighbours; the form the
      proofs below work with. */
  predicate Chained(s: seq<Instance>) {
    |s| <= 1 || (s[0].instNum <= s[1].instNum && Chained(s[1..]))
  }

  lemma {:induction false} ChainedSorted(s: seq<Instance>)
    requires Chained(s)
    ensures Sorted(s)
  {
    if |s| > 1 {
      ChainedSorted(s[1..]);
      assert forall j :: 1 <= j < |s| ==> s[j] == s[1..][j - 1];
    }
  }

  lemma {:induction false} SortedChained(s: seq<Instance>)
    requires Sorted(s)
    ensures Chained(s)
  {
    if |s| > 1 {
      assert forall i, j :: 0 <= i < j < |s| - 1 ==> s[1..][i] == s[i + 1] && s[1..][j] == s[j + 1];
      SortedChained(s[1..]);
    }
  }

  /** The instances of `s` whose number is `k`, in their order in `s`. A sort is
      stable exactly when it keeps each of these subsequences unchanged. */
  function WithInstNum(s: seq<Instance>, k: int): seq<Instance> {
    if |s| == 0 then []
    else (if s[0].instNum == k then [s[0]] else []) + WithInstNum(s[1..], k)
  }

  /** Inserts `x` after every element whose number is at most its own. */
  function Insert(x: Instance, s: seq<Instance>): (r: seq<Instance>)
    requires Chained(s)
    ensures Chained(r)
    ensures |r| == |s| + 1
    ensures r[0] == x || (|s| > 0 && r[0] == s[0])
  {
    if |s| == 0 then [x]
    else if s[0].instNum <= x.instNum then
      var t := Insert(x, s[1..]);
      assert ([s[0]] + t)[1..] == t;
      [s[0]] + t
    else
      assert ([x] + s)[1..] == s;
      [x] + s
  }

  lemma {:induction false} InsertPerm(x: Instance, s: seq<Instance>)
    requires Chained(s)
    ensures multiset(Insert(x, s)) == multiset(s) + multiset{x}
  {
    if |s| > 0 && s[0].instNum <= x.instNum {
      InsertPerm(x, s[1..]);
      assert s == [s[0]] + s[1..];
    }
  }

  /** The stable insertion sort by instance number: a sorted permutation of
      its input (stability is lemma SortStable). */
  function SortByInstNum(s: seq<Instance>): (r: seq<Instance>)
    ensures Sorted(r)
    ensures multiset(r) == multiset(s)
    ensures |r| == |s|
  {
    var r := SortChain(s);
    ChainedSorted(r);
    SortChainPerm(s);
    r
  }

  function SortChain(s: seq<Instance>): (r: seq<Instance>)
    ensures Chained(r)
    ensures |r| == |s|
  {
    if |s| == 0 then [] else Insert(s[|s| - 1], SortChain(s[..|s| - 1]))
  }

  lemma {:induction false} SortChainPerm(s: seq<Instance>)
    ensures multiset(SortChain(s)) == multiset(s)
  {
    if |s| > 0 {
      var init, last := s[..|s| - 1], s[|s| - 1];
      SortChainPerm(init);
      InsertPerm(last, SortChain(init));
      assert SortChain(s) == Insert(last, SortChain(init));
      SnocMultiset(s);
    }
  }

  lemma SnocMultiset(s: seq<Instance>)
    requires |s| > 0
    ensures multiset(s) == multiset(s[..|s| - 1]) + multiset{s[|s| - 1]}
  {
    assert s == s[..|s| - 1] + [s[|s| - 1]];
  }

  lemma {:induction false} WithInstNumAppend(a: seq<Instance>, b: seq<Instance>, k: int)
    ensures WithInstNum(a + b, k) == WithInstNum(a, k) + WithInstNum(b, k)
  {
    if |a| == 0 {
      assert a + b == b;
    } else {
      var h := if a[0].instNum == k then [a[0]] else [];
      assert (a + b)[0] == a[0];
      assert (a + b)[1..] == a[1..] + b;
      assert WithInstNum(a + b, k) == h + WithInstNum(a[1..] + b, k);
      WithInstNumAppend(a[1..], b, k);
    }
  }

  lemma {:induction false} WithInstNumAbove(s: seq<Instance>, k: int)
    requires Chained(s)
    requires |s| > 0 ==> s[0].instNum > k
    ensures WithInstNum(s, k) == []
  {
    if |s| > 0 {
      WithInstNumAbove(s[1..], k);
    }
  }

  lemma WithInstNumCons(y: Instance, t: seq<Instance>, k: int)
    ensures WithInstNum([y] + t, k) == (if y.instNum == k then [y] else []) + WithInstNum(t, k)
  {
    assert ([y] + t)[0] == y;
    assert ([y] + t)[1..] == t;
  }

  /** Inserting `x` appends it to the run of instances that share its number. */
  lemma {:induction false} InsertStable(x: Instance, s: seq<Instance>, k: int)
    requires Chained(s)
    ensures WithInstNum(Insert(x, s), k) == WithInstNum(s, k) + (if x.instNum == k then [x] else [])
  {
    var hx := if x.instNum == k then [x] else [];
    if |s| == 0 {
      assert Insert(x, s) == [x] + [];
      WithInstNumCons(x, [], k);
    } else if s[0].instNum <= x.instNum {
      var h0 := if s[0].instNum == k then [s[0]] else [];
      assert Chained(s[1..]);
      assert Insert(x, s) == [s[0]] + Insert(x, s[1..]);
      InsertStable(x, s[1..], k);
      WithInstNumCons(s[0], Insert(x, s[1..]), k);
      assert WithInstNum(s, k) == h0 + WithInstNum(s[1..], k);
      calc {
        WithInstNum(Insert(x, s), k);
        h0 + WithInstNum(Insert(x, s[1..]), k);
        h0 + (WithInstNum(s[1..], k) + hx);
        WithInstNum(s, k) + hx;
      }
    } else {
      if x.instNum == k {
        WithInstNumAbove(s, k);
      }
      WithInstNumCons(x, s, k);
    }
  }

  /** The sort is stable: instances that share a number keep their input order. */
  lemma SortStable(s: seq<Instance>, k: int)
    ensures WithInstNum(SortByInstNum(s), k) == WithInstNum(s, k)
  {
    SortChainStable(s, k);
  }

  lemma {:induction false} SortChainStable(s: seq<Instance>, k: int)
    ensures WithInstNum(SortChain(s), k) == WithInstNum(s, k)
  {
    if |s| > 0 {
      var init, last := s[..|s| - 1], s[|s| - 1];
      SortChainStable(init, k);
      InsertStable(last, SortChain(init), k);
      assert SortChain(s) == Insert(last, SortChain(init));
      WithInstNumSnoc(s, k);
    }
  }

  lemma WithInstNumSnoc(s: seq<Instance>, k: int)
    requires |s| > 0
    ensures WithInstNum(s, k) == WithInstNum(s[..|s| - 1], k) + (if s[|s| - 1].instNum == k then [s[|s| - 1]] else [])
  {
    var init, last := s[..|s| - 1], s[|s| - 1];
    assert s == init + [last];
    WithInstNumAppend(init, [last], k);
    WithInstNumCons(last, [], k);
    assert [last] + [] == [last];
  }

  /** Sorting an already sorted series changes nothing. */
  lemma SortSorted(s: seq<Instance>)
    requires Sorted(s)
    ensures SortByInstNum(s) == s
  {
    SortedChained(s);
    SortChainedFixed(s);
  }

  lemma {:induction false} SortChainedFixed(s: seq<Instance>)
    requires Chained(s)
    ensures SortByInstNum(s) == s
  {
    if |s| > 0 {
      var init, last := s[..|s| - 1], s[|s| - 1];
      ChainedInit(s);
      SortChainedFixed(init);
      ChainedSorted(s);
      InsertLast(last, init);
      assert s == init + [last];
    }
  }

  lemma {:induction false} ChainedInit(s: seq<Instance>)
    requires Chained(s) && |s| > 0
    ensures Chained(s[..|s| - 1])
  {
    if |s| > 2 {
      ChainedInit(s[1..]);
      assert s[1..][..|s| - 2] == s[..|s| - 1][1..];
    }
  }

  lemma {:induction false} InsertLast(x: Instance, s: seq<Instance>)
    requires Chained(s)
    requires forall j :: 0 <= j < |s| ==> s[j].instNum <= x.instNum
    ensures Insert(x, s) == s + [x]
  {
    if |s| > 0 {
      InsertLast(x, s[1..]);
    }
  }
}
