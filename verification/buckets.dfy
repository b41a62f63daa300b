/**
  A bucket table: Python's `defaultdict(list)` of scores. Besides the key to
  bucket mapping it keeps the order in which keys were first appended to,
  because the dashboards iterate over the dict in that order.
 */
module Buckets {

  datatype Table<K> = Table(order: seq<K>, buckets: map<K, seq<real>>)

  predicate Distinct<K(==)>(s: seq<K>)
  {
    forall i, j :: 0 <= i < j < |s| ==> s[i] != s[j]
  }

  /** Keys appear once in `order`, exactly the keys of `buckets`, and no
      bucket is empty (a key only exists once something was appended). */
  predicate Valid<K(==)>(t: Table<K>)
  {
    && Distinct(t.order)
    && t.buckets.Keys == set k | k in t.order
    && forall k :: k in t.buckets ==> |t.buckets[k]| > 0
  }

  function Empty<K>(): (t: Table<K>)
    ensures Valid(t) && |t.order| == 0
  {
    Table([], map[])
  }

  /** The bucket of `k`, empty when `k` was never appended to. */
  function Get<K>(t: Table<K>, k: K): seq<real>
  {
    if k in t.buckets then t.buckets[k] else []
  }

  /** `table[k].append(x)`: only `k`'s bucket grows, by `x` at its end; a new
      key goes to the end of the iteration order. */
  function Add<K(!new)>(t: Table<K>, k: K, x: real): (r: Table<K>)
    requires Valid(t)
    ensures Valid(r)
    ensures Get(r, k) == Get(t, k) + [x]
    ensures forall k' :: k' != k ==> Get(r, k') == Get(t, k')
    ensures r.buckets.Keys == t.buckets.Keys + {k}
    ensures k in t.buckets ==> r.order == t.order
    ensures k !in t.buckets ==> r.order == t.order + [k]
  {
    if k in t.buckets then
      Table(t.order, t.buckets[k := t.buckets[k] + [x]])
    else
      Table(t.order + [k], t.buckets[k := [x]])
  }

  /** Number of occurrences of `x` in `s`. */
  function Count<K(==)>(s: seq<K>, x: K): nat
  {
    if |s| == 0 then 0 else (if s[0] == x then 1 else 0) + Count(s[1..], x)
  }

  /** `n` copies of `x`. */
  function Repeat(x: real, n: nat): (r: seq<real>)
    ensures |r| == n && forall i :: 0 <= i < n ==> r[i] == x
  {
    if n == 0 then [] else [x] + Repeat(x, n - 1)
  }

  /** `for k in ks: table[k].append(x)`: every key's bucket grows by one copy
      of `x` per occurrence of the key in `ks`; nothing else changes. */
  function AddAll<K(!new)>(t: Table<K>, ks: seq<K>, x: real): (r: Table<K>)
    requires Valid(t)
    ensures Valid(r)
    ensures forall k :: Get(r, k) == Get(t, k) + Repeat(x, Count(ks, k))
    ensures r.buckets.Keys == t.buckets.Keys + set k | k in ks
    decreases |ks|
  {
    if |ks| == 0 then t
    else
      var t1 := Add(t, ks[0], x);
      var r := AddAll(t1, ks[1..], x);
      AddAllStep(t, t1, r, ks, x);
      ElementsStep(ks);
      r
  }

  lemma ElementsStep<K>(ks: seq<K>)
    requires |ks| > 0
    ensures (set k | k in ks) == {ks[0]} + set k | k in ks[1..]
  {
    assert ks == [ks[0]] + ks[1..];
  }

  lemma AddAllStep<K>(t: Table<K>, t1: Table<K>, r: Table<K>, ks: seq<K>, x: real)
    requires |ks| > 0
    requires Get(t1, ks[0]) == Get(t, ks[0]) + [x]
    requires forall k :: k != ks[0] ==> Get(t1, k) == Get(t, k)
    requires forall k :: Get(r, k) == Get(t1, k) + Repeat(x, Count(ks[1..], k))
    ensures forall k :: Get(r, k) == Get(t, k) + Repeat(x, Count(ks, k))
  {
    forall k
      ensures Get(r, k) == Get(t, k) + Repeat(x, Count(ks, k))
    {
      var rest := Repeat(x, Count(ks[1..], k));
      if ks[0] == k {
        assert Get(r, k) == (Get(t, k) + [x]) + rest;
        assert Repeat(x, Count(ks, k)) == [x] + rest;
      } else {
        assert Get(r, k) == Get(t, k) + rest;
      }
    }
  }

  /** A valid table's iteration order lists each key exactly once, so its
      length is the number of keys. */
  lemma {:induction false} OrderLength<K>(t: Table<K>)
    requires Valid(t)
    ensures |t.order| == |t.buckets.Keys|
  {
    DistinctCard(t.order);
    assert t.buckets.Keys == set k | k in t.order;
  }

  lemma {:induction false} DistinctCard<K>(s: seq<K>)
    requires Distinct(s)
    ensures |set k | k in s| == |s|
    decreases |s|
  {
    if |s| == 0 {
      assert (set k | k in s) == {};
    } else {
      var init := s[..|s| - 1];
      var last := s[|s| - 1];
      assert Distinct(init);
      DistinctCard(init);
      assert s == init + [last];
      assert (set k | k in s) == (set k | k in init) + {last};
      assert last !in init;
    }
  }

  // ---------------------------------------------------------------------
  // Iteration order
  // ---------------------------------------------------------------------

  /** `d` followed by the elements of `s` not already listed, each at its
      first occurrence, left to right. */
  function Extend<K(==, !new)>(d: seq<K>, s: seq<K>): (e: seq<K>)
    ensures forall k :: k in e <==> k in d || k in s
    ensures |d| <= |e| && e[..|d|] == d
    decreases |s|
  {
    if |s| == 0 then d
    else
      var e := Extend(d, s[..|s| - 1]);
      if s[|s| - 1] in e then e else e + [s[|s| - 1]]
  }

  /** The distinct elements of `s` in order of first occurrence. */
  function Dedup<K(==, !new)>(s: seq<K>): seq<K>
  {
    Extend([], s)
  }

  lemma {:induction false} ExtendDistinct<K(!new)>(d: seq<K>, s: seq<K>)
    requires Distinct(d)
    ensures Distinct(Extend(d, s))
    decreases |s|
  {
    if |s| > 0 {
      ExtendDistinct(d, s[..|s| - 1]);
    }
  }

  /** Extending by `a + b` is extending by `a`, then by `b`. */
  lemma {:induction false} ExtendConcat<K(!new)>(d: seq<K>, a: seq<K>, b: seq<K>)
    ensures Extend(d, a + b) == Extend(Extend(d, a), b)
    decreases |b|
  {
    if |b| == 0 {
      assert a + b == a;
    } else {
      assert (a + b)[..|a + b| - 1] == a + b[..|b| - 1];
      assert (a + b)[|a + b| - 1] == b[|b| - 1];
      ExtendConcat(d, a, b[..|b| - 1]);
    }
  }

  /** Appending to a key adds it to the end of the iteration order the
      first time only: the order after `for k in ks: table[k].append(x)`
      is the old order extended by the new keys of `ks` as first met. */
  lemma {:induction false} AddAllOrder<K(!new)>(t: Table<K>, ks: seq<K>, x: real)
    requires Valid(t)
    ensures AddAll(t, ks, x).order == Extend(t.order, ks)
    decreases |ks|
  {
    if |ks| > 0 {
      var t1 := Add(t, ks[0], x);
      calc {
        AddAll(t, ks, x).order;
        AddAll(t1, ks[1..], x).order;
        { AddAllOrder(t1, ks[1..], x); }
        Extend(t1.order, ks[1..]);
        { AddOrder(t, ks[0], x); }
        Extend(Extend(t.order, [ks[0]]), ks[1..]);
        { ExtendConcat(t.order, [ks[0]], ks[1..]); }
        Extend(t.order, [ks[0]] + ks[1..]);
        { assert [ks[0]] + ks[1..] == ks; }
        Extend(t.order, ks);
      }
    }
  }

  lemma AddOrder<K(!new)>(t: Table<K>, k: K, x: real)
    requires Valid(t)
    ensures Add(t, k, x).order == Extend(t.order, [k])
  {
    assert [k][..0] == [];
    assert k in t.buckets <==> k in t.order;
  }

  /** Position of the first occurrence of `x` in `s`. */
  function FirstIndex<K(==)>(s: seq<K>, x: K): (i: nat)
    requires x in s
    ensures i < |s| && s[i] == x
    ensures forall j :: 0 <= j < i ==> s[j] != x
  {
    if s[0] == x then 0 else 1 + FirstIndex(s[1..], x)
  }

  lemma FirstIndexPrefix<K(!new)>(s: seq<K>, n: nat, x: K)
    requires n <= |s| && x in s[..n]
    ensures FirstIndex(s, x) == FirstIndex(s[..n], x)
  {
    var i := FirstIndex(s[..n], x);
    var j := FirstIndex(s, x);
    assert s[..n][j] == x by { assert j <= i; }
  }

  lemma DedupPairStep<K(!new)>(s: seq<K>, a: nat, b: nat)
    requires |s| > 0 && a < b < |Dedup(s)|
    requires var init := s[..|s| - 1];
             forall a, b :: 0 <= a < b < |Dedup(init)| ==>
               FirstIndex(init, Dedup(init)[a]) < FirstIndex(init, Dedup(init)[b])
    ensures FirstIndex(s, Dedup(s)[a]) < FirstIndex(s, Dedup(s)[b])
  {
    var init := s[..|s| - 1];
    var last := s[|s| - 1];
    var d := Dedup(init);
    assert Dedup(s)[a] == d[a] && d[a] in init;
    FirstIndexPrefix(s, |s| - 1, d[a]);
    if b < |d| {
      assert Dedup(s)[b] == d[b];
      FirstIndexPrefix(s, |s| - 1, d[b]);
    } else {
      assert Dedup(s)[b] == last && last !in init;
      assert FirstIndex(s, last) == |s| - 1;
    }
  }

  /** The deduplicated list holds each element of `s` once, in the order of
      the elements' first occurrences in `s`. */
  lemma {:induction false} DedupOrder<K(!new)>(s: seq<K>)
    ensures Distinct(Dedup(s))
    ensures forall k :: k in Dedup(s) <==> k in s
    ensures forall a, b :: 0 <= a < b < |Dedup(s)| ==>
              FirstIndex(s, Dedup(s)[a]) < FirstIndex(s, Dedup(s)[b])
    decreases |s|
  {
    ExtendDistinct([], s);
    if |s| > 0 {
      var init := s[..|s| - 1];
      var last := s[|s| - 1];
      var d := Dedup(init);
      DedupOrder(init);
      forall a, b | 0 <= a < b < |Dedup(s)|
        ensures FirstIndex(s, Dedup(s)[a]) < FirstIndex(s, Dedup(s)[b])
      {
        DedupPairStep(s, a, b);
      }
    }
  }
}
