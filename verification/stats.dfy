/**
  The reductions the dashboards apply to bucket tables: the mean of a
  bucket (`np.mean`), the per-key mean table (a dict comprehension over
  `table.items()`), the orderings used for plotting (`sorted(...)`) and the
  `zip(*...)` that splits the sorted pairs into two plotting sequences.
  Scores and means are exact reals.
 */
module Stats {
  import opened Options
  import opened Buckets

  function Sum(xs: seq<real>): real
    decreases |xs|
  {
    if |xs| == 0 then 0.0 else Sum(xs[..|xs| - 1]) + xs[|xs| - 1]
  }

  function Min(xs: seq<real>): (m: real)
    requires |xs| > 0
    ensures m in xs
    ensures forall i :: 0 <= i < |xs| ==> m <= xs[i]
    decreases |xs|
  {
    if |xs| == 1 then xs[0]
    else
      var m := Min(xs[1..]);
      if xs[0] <= m then xs[0] else m
  }

  function Max(xs: seq<real>): (m: real)
    requires |xs| > 0
    ensures m in xs
    ensures forall i :: 0 <= i < |xs| ==> xs[i] <= m
    decreases |xs|
  {
    if |xs| == 1 then xs[0]
    else
      var m := Max(xs[1..]);
      if m <= xs[0] then xs[0] else m
  }

  /** A sum of `n` values lying in [lo, hi] lies in [n * lo, n * hi]. */
  lemma {:induction false} SumBounds(xs: seq<real>, lo: real, hi: real)
    requires forall i :: 0 <= i < |xs| ==> lo <= xs[i] <= hi
    ensures |xs| as real * lo <= Sum(xs) <= |xs| as real * hi
    decreases |xs|
  {
    if |xs| > 0 {
      var init := xs[..|xs| - 1];
      assert forall i :: 0 <= i < |init| ==> init[i] == xs[i];
      SumBounds(init, lo, hi);
    }
  }

  lemma DivBounds(total: real, n: real, lo: real, hi: real)
    requires n > 0.0
    requires n * lo <= total <= n * hi
    ensures lo <= total / n <= hi
  {
    var m := total / n;
    assert m * n == total;
  }

  /** `np.mean` of a non-empty bucket: sum over length, hence between the
      bucket's smallest and largest score. */
  function Mean(xs: seq<real>): (m: real)
    requires |xs| > 0
    ensures Min(xs) <= m <= Max(xs)
  {
    MeanBounds(xs);
    Sum(xs) / (|xs| as real)
  }

  lemma MeanBounds(xs: seq<real>)
    requires |xs| > 0
    ensures Min(xs) <= Sum(xs) / (|xs| as real) <= Max(xs)
  {
    AverageBounds(xs, Min(xs), Max(xs));
  }

  /** The average of values lying in [lo, hi] lies in [lo, hi]. */
  lemma AverageBounds(xs: seq<real>, lo: real, hi: real)
    requires |xs| > 0
    requires forall i :: 0 <= i < |xs| ==> lo <= xs[i] <= hi
    ensures lo <= Sum(xs) / (|xs| as real) <= hi
  {
    SumBounds(xs, lo, hi);
    DivBounds(Sum(xs), |xs| as real, lo, hi);
  }

  /** The mean of a bucket whose scores are all equal is that score. */
  lemma MeanOfEqualScores(xs: seq<real>, x: real)
    requires |xs| > 0
    requires forall i :: 0 <= i < |xs| ==> xs[i] == x
    ensures Mean(xs) == x
  {
    assert Min(xs) == x && Max(xs) == x;
  }

  /** `{k: np.mean(v) for k, v in table.items()}`: exactly the table's keys,
      each mapped to a value within its bucket's range. */
  function MeanTable<K>(t: Table<K>): (m: map<K, real>)
    requires Valid(t)
    ensures m.Keys == t.buckets.Keys
    ensures forall k :: k in m ==> Min(t.buckets[k]) <= m[k] <= Max(t.buckets[k])
  {
    map k | k in t.buckets :: Mean(t.buckets[k])
  }

  /** `mean_table.items()` in the table's iteration order. */
  function Items<K>(t: Table<K>): (r: seq<(K, real)>)
    requires Valid(t)
    ensures |r| == |t.order|
    ensures forall i :: 0 <= i < |r| ==> r[i].0 == t.order[i] && r[i].0 in t.buckets
    ensures forall i :: 0 <= i < |r| ==> r[i].1 == MeanTable(t)[r[i].0]
  {
    seq(|t.order|, i requires 0 <= i < |t.order| => (t.order[i], Mean(t.buckets[t.order[i]])))
  }

  // ---------------------------------------------------------------------
  // Sorting
  // ---------------------------------------------------------------------

  predicate SortedBy<T>(s: seq<T>, key: T -> real)
  {
    forall i, j :: 0 <= i < j < |s| ==> key(s[i]) <= key(s[j])
  }

  /** Inserts `x` after every element whose key is not larger, so equal keys
      keep their arrival order. */
  function Insert<T>(x: T, s: seq<T>, key: T -> real): (r: seq<T>)
    requires SortedBy(s, key)
    ensures SortedBy(r, key)
    ensures multiset(r) == multiset(s) + multiset{x}
    decreases |s|
  {
    if |s| == 0 then [x]
    else if key(x) < key(s[0]) then
      assert s == [s[0]] + s[1..];
      [x] + s
    else
      var rest := Insert(x, s[1..], key);
      assert s == [s[0]] + s[1..];
      InsertHeadSorted(s[0], x, s[1..], rest, key);
      [s[0]] + rest
  }

  lemma InsertHeadSorted<T>(h: T, x: T, tail: seq<T>, rest: seq<T>, key: T -> real)
    requires SortedBy([h] + tail, key) && SortedBy(rest, key)
    requires key(h) <= key(x)
    requires multiset(rest) == multiset(tail) + multiset{x}
    ensures SortedBy([h] + rest, key)
  {
    forall j | 0 <= j < |rest|
      ensures key(h) <= key(rest[j])
    {
      assert rest[j] in multiset(rest);
      if rest[j] != x {
        assert rest[j] in multiset(tail);
        var k :| 0 <= k < |tail| && tail[k] == rest[j];
        var ht := [h] + tail;
        assert ht[0] == h && ht[k + 1] == tail[k];
        assert key(ht[0]) <= key(ht[k + 1]);
      }
    }
    var r := [h] + rest;
    forall i, j | 0 <= i < j < |r|
      ensures key(r[i]) <= key(r[j])
    {
      assert r[j] == rest[j - 1];
      if i > 0 {
        assert r[i] == rest[i - 1];
        assert key(rest[i - 1]) <= key(rest[j - 1]);
      } else {
        assert key(h) <= key(rest[j - 1]);
      }
    }
  }

  /** A stable insertion sort by `key`, ascending: Python's `sorted(s, key=key)`. */
  function SortBy<T>(s: seq<T>, key: T -> real): (r: seq<T>)
    ensures SortedBy(r, key)
    ensures multiset(r) == multiset(s)
    decreases |s|
  {
    if |s| == 0 then []
    else
      var init := s[..|s| - 1];
      assert s == init + [s[|s| - 1]];
      Insert(s[|s| - 1], SortBy(init, key), key)
  }

  /** `sorted(mean_table.items(), key=lambda x: x[1], reverse=True)`: every
      key with its mean, by mean, highest first. */
  function RankByMean<K>(t: Table<K>): (r: seq<(K, real)>)
    requires Valid(t)
    ensures multiset(r) == multiset(Items(t))
    ensures forall i, j :: 0 <= i < j < |r| ==> r[i].1 >= r[j].1
  {
    SortBy(Items(t), (p: (K, real)) => -p.1)
  }

  /** `sorted(mean_table.items())` on year keys: every year with its mean,
      by year, oldest first. */
  function ByYear(t: Table<int>): (r: seq<(int, real)>)
    requires Valid(t)
    ensures multiset(r) == multiset(Items(t))
    ensures forall i, j :: 0 <= i < j < |r| ==> r[i].0 <= r[j].0
  {
    SortBy(Items(t), (p: (int, real)) => p.0 as real)
  }

  /** The ranking lists every key of the table once, with its mean. */
  lemma RankedEntries<K>(t: Table<K>)
    requires Valid(t)
    ensures |RankByMean(t)| == |t.buckets.Keys|
    ensures forall k :: k in t.buckets ==> (k, MeanTable(t)[k]) in RankByMean(t)
    ensures forall p :: p in RankByMean(t) ==> p.0 in t.buckets && p.1 == MeanTable(t)[p.0]
  {
    SortedEntries(t, RankByMean(t));
  }

  /** The year series lists every year once, with its mean, strictly by year. */
  lemma YearEntries(t: Table<int>)
    requires Valid(t)
    ensures |ByYear(t)| == |t.buckets.Keys|
    ensures forall k :: k in t.buckets ==> (k, MeanTable(t)[k]) in ByYear(t)
    ensures forall p :: p in ByYear(t) ==> p.0 in t.buckets && p.1 == MeanTable(t)[p.0]
    ensures forall i, j :: 0 <= i < j < |ByYear(t)| ==> ByYear(t)[i].0 < ByYear(t)[j].0
  {
    var r := ByYear(t);
    SortedEntries(t, r);
    ItemsDistinct(t);
    forall i, j | 0 <= i < j < |r|
      ensures r[i].0 < r[j].0
    {
      if r[i].0 == r[j].0 {
        assert r[i] in r && r[j] in r;
        assert r[i] == r[j];
        TwiceCounted(r, i, j);
        OnceCounted(Items(t), r[i]);
        assert false;
      }
    }
  }

  /** Shared part of the two orderings: a permutation of the items. */
  lemma SortedEntries<K>(t: Table<K>, r: seq<(K, real)>)
    requires Valid(t)
    requires multiset(r) == multiset(Items(t))
    ensures |r| == |t.buckets.Keys|
    ensures forall k :: k in t.buckets ==> (k, MeanTable(t)[k]) in r
    ensures forall p :: p in r ==> p.0 in t.buckets && p.1 == MeanTable(t)[p.0]
  {
    var items := Items(t);
    assert |r| == |multiset(r)| == |multiset(items)| == |items|;
    OrderLength(t);
    forall p
      ensures p in r <==> p in items
    {
      assert p in r <==> p in multiset(r);
      assert p in items <==> p in multiset(items);
    }
    forall k | k in t.buckets
      ensures (k, MeanTable(t)[k]) in r
    {
      var i :| 0 <= i < |t.order| && t.order[i] == k;
      assert items[i] == (k, MeanTable(t)[k]);
    }
  }

  lemma ItemsDistinct<K>(t: Table<K>)
    requires Valid(t)
    ensures Distinct(Items(t))
  {
  }

  lemma {:induction false} OnceCounted<T>(s: seq<T>, x: T)
    requires Distinct(s)
    ensures multiset(s)[x] <= 1
    decreases |s|
  {
    if |s| > 0 {
      var init := s[..|s| - 1];
      assert s == init + [s[|s| - 1]];
      OnceCounted(init, x);
      if s[|s| - 1] == x {
        assert x !in init;
      }
    }
  }

  lemma TwiceCounted<T>(s: seq<T>, i: nat, j: nat)
    requires i < j < |s| && s[i] == s[j]
    ensures multiset(s)[s[i]] >= 2
  {
    var x := s[i];
    assert s == s[..j] + [s[j]] + s[j + 1..];
    assert s[..j][i] == x;
    assert x in multiset(s[..j]);
  }

  /** `keys, values = zip(*pairs)`: fails (ValueError) when there are no pairs. */
  function Unzip<K>(pairs: seq<(K, real)>): (r: Option<(seq<K>, seq<real>)>)
    ensures r.None? <==> |pairs| == 0
    ensures r.Some? ==> |r.value.0| == |pairs| && |r.value.1| == |pairs|
    ensures r.Some? ==> forall i :: 0 <= i < |pairs| ==> (r.value.0[i], r.value.1[i]) == pairs[i]
  {
    if |pairs| == 0 then None
    else Some((seq(|pairs|, i requires 0 <= i < |pairs| => pairs[i].0),
               seq(|pairs|, i requires 0 <= i < |pairs| => pairs[i].1)))
  }
}
