/** A JavaScript plain object used as a dictionary: an insertion-ordered list
    of entries with string keys. Assigning to an existing key replaces its value in
    place (the key keeps its position); assigning to a new key appends it, so
    `Object.keys` enumerates keys in first-insertion order. */
module Assoc {
  import opened Wrappers

  type Assoc<V> = seq<(string, V)>

  /** `Object.keys(a)`. */
  function Keys<V>(a: Assoc<V>): (ks: seq<string>)
    ensures |ks| == |a|
    ensures forall i :: 0 <= i < |a| ==> ks[i] == a[i].0
  {
    if |a| == 0 then [] else [a[0].0] + Keys(a[1..])
  }

  /** No key occurs twice. */
  predicate UniqueKeys<V>(a: Assoc<V>) {
    forall i, j :: 0 <= i < j < |a| ==> a[i].0 != a[j].0
  }

  /** `a[k]`, `None` when `k` is not a key. */
  function Find<V>(a: Assoc<V>, k: string): (r: Option<V>)
    ensures r.Some? <==> exists i :: 0 <= i < |a| && a[i].0 == k
    ensures r.Some? ==> exists i :: 0 <= i < |a| && a[i] == (k, r.value)
  {
    if |a| == 0 then None
    else if a[0].0 == k then Some(a[0].1)
    else
      var r := Find(a[1..], k);
      assert forall i :: 0 < i < |a| ==> a[i] == a[1..][i - 1];
      r
  }

  /** Appending an entry leaves the lookups of existing keys alone. */
  lemma {:induction false} FindSnoc<V>(a: Assoc<V>, x: (string, V), k: string)
    ensures Find(a + [x], k) == if Find(a, k).Some? then Find(a, k) else if x.0 == k then Some(x.1) else None
  {
    if |a| > 0 {
      assert (a + [x])[1..] == a[1..] + [x];
      FindSnoc(a[1..], x, k);
    }
  }

  /** With unique keys, each entry is what its key finds. */
  lemma FindUnique<V>(a: Assoc<V>, i: int)
    requires UniqueKeys(a) && 0 <= i < |a|
    ensures Find(a, a[i].0) == Some(a[i].1)
  {
    var j :| 0 <= j < |a| && a[j] == (a[i].0, Find(a, a[i].0).value);
  }

  /** `Object.keys` of an extended object. */
  lemma KeysSnoc<V>(a: Assoc<V>, x: (string, V))
    ensures Keys(a + [x]) == Keys(a) + [x.0]
  {
  }

  /** `a[k] = v`. */
  function Put<V>(a: Assoc<V>, k: string, v: V): (r: Assoc<V>)
    ensures Find(r, k) == Some(v)
    ensures forall k' :: k' != k ==> Find(r, k') == Find(a, k')
  {
    if |a| == 0 then [(k, v)]
    else if a[0].0 == k then [(k, v)] + a[1..]
    else
      var r := [a[0]] + Put(a[1..], k, v);
      assert r[1..] == Put(a[1..], k, v);
      r
  }

  /** Every entry after an assignment is an old entry or the new one. */
  lemma {:induction false} PutEntries<V>(a: Assoc<V>, k: string, v: V)
    ensures forall e :: e in Put(a, k, v) ==> e in a || e == (k, v)
  {
    if |a| > 0 && a[0].0 != k {
      PutEntries(a[1..], k, v);
      assert Put(a, k, v) == [a[0]] + Put(a[1..], k, v);
    }
  }

  /** An existing key keeps its position; a new key is appended last. */
  lemma {:induction false} PutKeys<V>(a: Assoc<V>, k: string, v: V)
    ensures Find(a, k).Some? ==> Keys(Put(a, k, v)) == Keys(a)
    ensures Find(a, k).None? ==> Keys(Put(a, k, v)) == Keys(a) + [k]
  {
    if |a| > 0 && a[0].0 != k {
      PutKeys(a[1..], k, v);
      assert Put(a, k, v) == [a[0]] + Put(a[1..], k, v);
      assert Keys(Put(a, k, v)) == [a[0].0] + Keys(Put(a[1..], k, v));
      assert Keys(a) == [a[0].0] + Keys(a[1..]);
    }
  }

  /** Assignment never duplicates a key. */
  lemma {:induction false} PutUnique<V>(a: Assoc<V>, k: string, v: V)
    requires UniqueKeys(a)
    ensures UniqueKeys(Put(a, k, v))
  {
    if |a| > 0 {
      UniqueUncons(a);
      if a[0].0 == k {
        UniqueCons((k, v), a[1..]);
      } else {
        PutUnique(a[1..], k, v);
        PutEntries(a[1..], k, v);
        UniqueCons(a[0], Put(a[1..], k, v));
      }
    }
  }

  lemma UniqueUncons<V>(a: Assoc<V>)
    requires UniqueKeys(a) && |a| > 0
    ensures UniqueKeys(a[1..])
    ensures forall e :: e in a[1..] ==> e.0 != a[0].0
  {
    assert forall i :: 0 <= i < |a| - 1 ==> a[1..][i] == a[i + 1];
  }

  lemma UniqueCons<V>(x: (string, V), t: Assoc<V>)
    requires UniqueKeys(t)
    requires forall e :: e in t ==> e.0 != x.0
    ensures UniqueKeys([x] + t)
  {
    var r := [x] + t;
    forall i, j | 0 <= i < j < |r|
      ensures r[i].0 != r[j].0
    {
      assert r[j] == t[j - 1];
      if i > 0 {
        assert r[i] == t[i - 1];
      }
    }
  }

  /** `Object.keys(a).map(k => f(a[k]))`, kept as a dictionary. */
  function MapValues<V, W>(a: Assoc<V>, f: V -> W): (r: Assoc<W>)
    ensures |r| == |a|
    ensures forall i :: 0 <= i < |a| ==> r[i] == (a[i].0, f(a[i].1))
  {
    if |a| == 0 then [] else [(a[0].0, f(a[0].1))] + MapValues(a[1..], f)
  }

  lemma FindMapValues<V, W>(a: Assoc<V>, f: V -> W, k: string)
    ensures Find(MapValues(a, f), k) == (if Find(a, k).Some? then Some(f(Find(a, k).value)) else None)
  {
    if |a| > 0 {
      assert MapValues(a, f)[1..] == MapValues(a[1..], f);
      FindMapValues(a[1..], f, k);
    }
  }

  /** Sum of `f` over the values. */
  function SumOf<V>(a: Assoc<V>, f: V -> nat): nat {
    if |a| == 0 then 0 else f(a[0].1) + SumOf(a[1..], f)
  }

  /** Replacing the value of `k` changes the sum by the difference of the
      new and old values' weights; a new key adds its value's weight. */
  lemma {:induction false} SumOfPut<V>(a: Assoc<V>, k: string, v: V, f: V -> nat)
    ensures SumOf(Put(a, k, v), f) + (if Find(a, k).Some? then f(Find(a, k).value) else 0)
            == SumOf(a, f) + f(v)
  {
    if |a| == 0 {
    } else if a[0].0 == k {
      assert Put(a, k, v)[1..] == a[1..];
    } else {
      assert Put(a, k, v)[1..] == Put(a[1..], k, v);
      assert Find(a, k) == Find(a[1..], k);
      SumOfPut(a[1..], k, v, f);
    }
  }

  /** A value map that preserves weights preserves the sum. */
  lemma {:induction false} SumOfMapValues<V>(a: Assoc<V>, g: V -> V, f: V -> nat)
    requires forall v :: f(g(v)) == f(v)
    ensures SumOf(MapValues(a, g), f) == SumOf(a, f)
  {
    if |a| > 0 {
      assert MapValues(a, g)[1..] == MapValues(a[1..], g);
      SumOfMapValues(a[1..], g, f);
    }
  }
}
