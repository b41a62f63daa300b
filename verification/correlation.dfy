/**
  The genre correlation heatmap: the genre buckets, taken in their
  iteration order, give an n-by-n matrix filled only over pairs i <= j, each
  fill writing both [i][j] and [j][i]. Pearson correlation itself
  (`np.corrcoef(...)[0, 1]`) is a parameter `corr` about which nothing is
  assumed.
 */
module Correlation {
  import opened Buckets
  import opened Records
  import opened Views

  type Corr = (seq<real>, seq<real>) -> real

  /** The smaller and the larger of two indices or lengths. */
  function Lo(a: nat, b: nat): nat { if a <= b then a else b }
  function Hi(a: nat, b: nat): nat { if a <= b then b else a }

  function Shorter(xs: seq<real>, ys: seq<real>): nat
  {
    if |xs| <= |ys| then |xs| else |ys|
  }

  /** One matrix cell: both buckets cut to the shorter length and
      correlated when at least two positions remain, 0 otherwise. */
  function PairEntry(xs: seq<real>, ys: seq<real>, corr: Corr): real
  {
    var n := Shorter(xs, ys);
    if n > 1 then corr(xs[..n], ys[..n]) else 0.0
  }

  /** The value the fill pattern leaves at [a][b]: the one computed for the
      ordered pair (min(a, b), max(a, b)). */
  function Cell(t: Table<string>, corr: Corr, a: nat, b: nat): real
    requires Valid(t) && a < |t.order| && b < |t.order|
  {
    PairEntry(t.buckets[t.order[Lo(a, b)]], t.buckets[t.order[Hi(a, b)]], corr)
  }

  /** Whether the row-major scan, now at row `i` and column `j`, has already
      filled the ordered pair (p, q) with p <= q. */
  predicate Filled(p: nat, q: nat, i: nat, j: nat)
  {
    p < i || (p == i && q < j)
  }

  predicate Square(m: seq<seq<real>>, n: nat)
  {
    |m| == n && forall a :: 0 <= a < n ==> |m[a]| == n
  }

  /** The nested fill loop over `genres = list(genre_ratings.keys())`. */
  method FillMatrix(t: Table<string>, corr: Corr) returns (genres: seq<string>, m: seq<seq<real>>)
    requires Valid(t)
    ensures genres == t.order
    ensures Square(m, |genres|)
    ensures forall a, b :: 0 <= a < |m| && 0 <= b < |m| ==> m[a][b] == m[b][a]
    ensures forall a, b :: 0 <= a <= b < |m| ==>
              var xs := t.buckets[genres[a]];
              var ys := t.buckets[genres[b]];
              var n := Shorter(xs, ys);
              m[a][b] == if n > 1 then corr(xs[..n], ys[..n]) else 0.0
  {
    genres := t.order;
    var n := |genres|;
    m := seq(n, _ => seq(n, _ => 0.0));
    var i := 0;
    while i < n
      invariant 0 <= i <= n
      invariant Square(m, n)
      invariant forall a, b :: 0 <= a < n && 0 <= b < n ==>
                  m[a][b] == if Filled(Lo(a, b), Hi(a, b), i, 0) then Cell(t, corr, a, b) else 0.0
    {
      var j := 0;
      while j < n
        invariant 0 <= j <= n
        invariant Square(m, n)
        invariant forall a, b :: 0 <= a < n && 0 <= b < n ==>
                    m[a][b] == if Filled(Lo(a, b), Hi(a, b), i, j) then Cell(t, corr, a, b) else 0.0
      {
        if i <= j {
          var c := PairEntry(t.buckets[genres[i]], t.buckets[genres[j]], corr);
          var row := m[i][j := c];
          m := m[i := row];
          var col := m[j][i := c];
          m := m[j := col];
        }
        j := j + 1;
      }
      i := i + 1;
    }
  }

  /** The genres that reach the heatmap: those listed by the known movie of
      some rating. */
  function SeenGenres(rs: seq<Rating>, movies: Movies): set<string>
  {
    set i, g | 0 <= i < |rs| && rs[i].movie in movies && g in movies[rs[i].movie].genres :: g
  }

  /** The matrix dimension is the number of distinct genres seen in ratings
      of known movies. */
  lemma MatrixDimension(rs: seq<Rating>, movies: Movies)
    ensures |GenreTable(rs, movies).order| == |SeenGenres(rs, movies)|
  {
    var t := GenreTable(rs, movies);
    SeenAreKeys(rs, movies);
    OrderLength(t);
  }

  /** The heatmap view: genre buckets of the ratings, then the fill. The
      matrix has one row and one column per distinct genre seen, in the
      order in which the genres are first met in the ratings. */
  method GenreCorrelation(rs: seq<Rating>, movies: Movies, corr: Corr) returns (genres: seq<string>, m: seq<seq<real>>)
    ensures genres == GenreTable(rs, movies).order
    ensures genres == Dedup(GenreIncidences(rs, movies))
    ensures forall a, b :: 0 <= a < b < |genres| ==>
              var seen := GenreIncidences(rs, movies);
              genres[a] in seen && genres[b] in seen && FirstIndex(seen, genres[a]) < FirstIndex(seen, genres[b])
    ensures |genres| == |SeenGenres(rs, movies)|
    ensures forall g :: g in genres <==> g in SeenGenres(rs, movies)
    ensures Square(m, |genres|)
    ensures forall a, b :: 0 <= a < |m| && 0 <= b < |m| ==> m[a][b] == m[b][a]
    ensures forall a, b :: 0 <= a <= b < |m| ==>
              var xs := GenreTable(rs, movies).buckets[genres[a]];
              var ys := GenreTable(rs, movies).buckets[genres[b]];
              var n := Shorter(xs, ys);
              m[a][b] == if n > 1 then corr(xs[..n], ys[..n]) else 0.0
  {
    var t := GenreTable(rs, movies);
    MatrixDimension(rs, movies);
    SeenAreKeys(rs, movies);
    GenreOrder(rs, movies);
    DedupOrder(GenreIncidences(rs, movies));
    genres, m := FillMatrix(t, corr);
  }

  /** In a filled matrix, a cell whose row or column genre has fewer than
      two scores is 0, on either side of the diagonal. */
  lemma ShortPairIsZero(t: Table<string>, corr: Corr, genres: seq<string>, m: seq<seq<real>>, a: nat, b: nat)
    requires Valid(t) && genres == t.order && Square(m, |genres|)
    requires forall a, b :: 0 <= a < |m| && 0 <= b < |m| ==> m[a][b] == m[b][a]
    requires forall a, b :: 0 <= a <= b < |m| ==>
              var xs := t.buckets[genres[a]];
              var ys := t.buckets[genres[b]];
              var n := Shorter(xs, ys);
              m[a][b] == if n > 1 then corr(xs[..n], ys[..n]) else 0.0
    requires a < |m| && b < |m|
    requires |Get(t, genres[a])| < 2 || |Get(t, genres[b])| < 2
    ensures m[a][b] == 0.0
  {
    assert genres[a] in t.buckets && genres[b] in t.buckets;
    var lo := Lo(a, b);
    var hi := Hi(a, b);
    var xs := t.buckets[genres[lo]];
    var ys := t.buckets[genres[hi]];
    assert Shorter(xs, ys) < 2;
    assert m[lo][hi] == 0.0;
    if b < a {
      assert m[a][b] == m[b][a];
    }
  }

  lemma SeenAreKeys(rs: seq<Rating>, movies: Movies)
    ensures GenreTable(rs, movies).buckets.Keys == SeenGenres(rs, movies)
  {
    forall g
      ensures g in GenreTable(rs, movies).buckets <==> g in SeenGenres(rs, movies)
    {
      GenreKeys(rs, movies, g);
    }
  }
}
