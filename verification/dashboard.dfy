/**
  What the views hand to the charts: mean tables over the bucket tables, and
  the sorted pairs split into plotting sequences.
 */
module Dashboard {
  import opened Options
  import opened Records
  import opened Titles
  import opened Buckets
  import opened Stats
  import opened Views

  /** The genre-mean table has a key exactly for each genre that received a
      score, and maps it to the mean of precisely the scores it received. */
  lemma GenreMeans(rs: seq<Rating>, movies: Movies, g: string)
    ensures var means := MeanTable(GenreTable(rs, movies));
            g in means <==> exists i :: 0 <= i < |rs| && FeedsGenre(rs[i], movies, g)
    ensures var means := MeanTable(GenreTable(rs, movies));
            g in means ==> |GenreScores(rs, movies, g)| > 0 && means[g] == Mean(GenreScores(rs, movies, g))
  {
    GenreKeys(rs, movies, g);
    GenreBucketContents(rs, movies, g);
  }

  /** The year-mean table has a key exactly for each year that received a
      score, and maps it to the mean of precisely those scores. */
  lemma YearMeans(rs: seq<Rating>, movies: Movies, y: int)
    ensures var means := MeanTable(YearTable(rs, movies));
            y in means <==> exists i :: 0 <= i < |rs| && RatingYear(rs[i], movies) == Some(y)
    ensures var means := MeanTable(YearTable(rs, movies));
            y in means ==> |YearScores(rs, movies, y)| > 0 && means[y] == Mean(YearScores(rs, movies, y))
  {
    YearKeys(rs, movies, y);
    YearBucketContents(rs, movies, y);
  }

  lemma MeanOfTwo(x: real, y: real)
    ensures Mean([x, y]) == (x + y) / 2.0
  {
    var xs := [x, y];
    assert Sum([x]) == x by { assert [x][..0] == []; }
    assert Sum(xs) == Sum([x]) + y by { assert xs[..1] == [x]; }
  }

  lemma AddAllOne<K(!new)>(t: Table<K>, k: K, x: real)
    requires Valid(t)
    ensures AddAll(t, [k], x) == Add(t, k, x)
  {
    assert [k][1..] == [];
  }

  lemma TwoScoresOneKey<K(!new)>(k: K, x1: real, x2: real)
    ensures var t := Add(Add(Empty(), k, x1), k, x2);
            t.buckets.Keys == {k} && t.buckets[k] == [x1, x2]
  {
    var t0: Table<K> := Empty();
    var t1 := Add(t0, k, x1);
    assert Get(t1, k) == [x1];
    var t := Add(t1, k, x2);
    assert Get(t, k) == [x1] + [x2];
  }

  lemma GenreTableOfTwo(r1: Rating, r2: Rating, movies: Movies)
    ensures GenreTable([r1, r2], movies)
         == GenreStep(GenreStep(Empty(), r1, movies), r2, movies)
  {
    var rs := [r1, r2];
    assert rs[..1] == [r1];
    assert GenreTable([r1], movies) == GenreStep(GenreTable([], movies), r1, movies) by {
      assert [r1][..0] == [];
    }
  }

  lemma YearTableOfTwo(r1: Rating, r2: Rating, movies: Movies)
    ensures YearTable([r1, r2], movies)
         == YearStep(YearStep(Empty(), r1, movies), r2, movies)
  {
    var rs := [r1, r2];
    assert rs[..1] == [r1];
    assert YearTable([r1], movies) == YearStep(YearTable([], movies), r1, movies) by {
      assert [r1][..0] == [];
    }
  }

  /** Two ratings of the same known movie with one genre: that genre's mean
      is the average of the two scores, and no other genre appears. */
  lemma TwoRatingsOneGenre(r1: Rating, r2: Rating, movies: Movies, g: string)
    requires r1.movie == r2.movie && r1.movie in movies
    requires movies[r1.movie].genres == [g]
    ensures var m := MeanTable(GenreTable([r1, r2], movies));
            m.Keys == {g} && m[g] == (r1.score + r2.score) / 2.0
  {
    GenreTableOneGenre(r1, r2, movies, g);
    MeanOfTwoAdds(GenreTable([r1, r2], movies), g, r1.score, r2.score);
  }

  lemma GenreTableOneGenre(r1: Rating, r2: Rating, movies: Movies, g: string)
    requires r1.movie == r2.movie && r1.movie in movies
    requires movies[r1.movie].genres == [g]
    ensures GenreTable([r1, r2], movies) == Add(Add(Empty(), g, r1.score), g, r2.score)
  {
    GenreTableOfTwo(r1, r2, movies);
    GenreStepsOneGenre(r1, r2, movies, g);
  }

  lemma GenreStepsOneGenre(r1: Rating, r2: Rating, movies: Movies, g: string)
    requires r1.movie == r2.movie && r1.movie in movies
    requires movies[r1.movie].genres == [g]
    ensures GenreStep(GenreStep(Empty(), r1, movies), r2, movies)
         == Add(Add(Empty(), g, r1.score), g, r2.score)
  {
    var t0: Table<string> := Empty();
    AddAllOne(t0, g, r1.score);
    AddAllOne(Add(t0, g, r1.score), g, r2.score);
  }

  /** Two scores appended to one key of an empty table: one key, whose mean
      is their average. */
  lemma MeanOfTwoAdds<K(!new)>(t: Table<K>, k: K, x1: real, x2: real)
    requires t == Add(Add(Empty(), k, x1), k, x2)
    ensures Valid(t) && MeanTable(t).Keys == {k} && MeanTable(t)[k] == (x1 + x2) / 2.0
  {
    TwoScoresOneKey(k, x1, x2);
    MeanOfTwo(x1, x2);
  }

  lemma YearTableOneYear(r1: Rating, r2: Rating, movies: Movies, y: nat)
    requires r1.movie == r2.movie && r1.movie in movies
    requires ExtractYear(movies[r1.movie].title) == Some(y)
    ensures YearTable([r1, r2], movies) == Add(Add(Empty(), y as int, r1.score), y as int, r2.score)
  {
    YearTableOfTwo(r1, r2, movies);
  }

  /** Two ratings of the same known movie whose title yields year `y`: that
      year's mean is the average of the two scores, and no other year appears. */
  lemma TwoRatingsOneYear(r1: Rating, r2: Rating, movies: Movies, y: nat)
    requires r1.movie == r2.movie && r1.movie in movies
    requires ExtractYear(movies[r1.movie].title) == Some(y)
    ensures var m := MeanTable(YearTable([r1, r2], movies));
            m.Keys == {y as int} && m[y] == (r1.score + r2.score) / 2.0
  {
    YearTableOneYear(r1, r2, movies, y);
    MeanOfTwoAdds(YearTable([r1, r2], movies), y as int, r1.score, r2.score);
  }

  /** Two ratings, 5 and 3, of one animated movie titled "Toy Story (1995)":
      the genre means are {"Animation": 4} and the year means {1995: 4}. */
  lemma ToyStoryExample()
    ensures var rs := [Rating(1, 1, 5.0), Rating(2, 1, 3.0)];
            var movies := map[1 := Movie("Toy Story (1995)", ["Animation"])];
            var genreMeans := MeanTable(GenreTable(rs, movies));
            var yearMeans := MeanTable(YearTable(rs, movies));
            && genreMeans.Keys == {"Animation"} && genreMeans["Animation"] == 4.0
            && yearMeans.Keys == {1995} && yearMeans[1995] == 4.0
  {
    var movies := map[1 := Movie("Toy Story (1995)", ["Animation"])];
    YearOfToyStory();
    TwoRatingsOneGenre(Rating(1, 1, 5.0), Rating(2, 1, 3.0), movies, "Animation");
    TwoRatingsOneYear(Rating(1, 1, 5.0), Rating(2, 1, 3.0), movies, 1995);
  }

  /** The year chart's `zip(*...)` fails exactly when no rating reached a
      year bucket. */
  lemma YearChartFails(rs: seq<Rating>, movies: Movies)
    ensures Unzip(ByYear(YearTable(rs, movies))).None? <==>
            forall i :: 0 <= i < |rs| ==> RatingYear(rs[i], movies).None?
  {
    var t := YearTable(rs, movies);
    YearEntries(t);
    if exists i :: 0 <= i < |rs| && RatingYear(rs[i], movies).Some? {
      var i :| 0 <= i < |rs| && RatingYear(rs[i], movies).Some?;
      YearKeys(rs, movies, RatingYear(rs[i], movies).value);
    } else if t.buckets.Keys != {} {
      var y :| y in t.buckets;
      YearKeys(rs, movies, y);
    }
  }

  /** The genre chart's `zip(*...)` fails exactly when no rating reached a
      genre bucket. */
  lemma GenreChartFails(rs: seq<Rating>, movies: Movies)
    ensures Unzip(RankByMean(GenreTable(rs, movies))).None? <==>
            forall i, g :: 0 <= i < |rs| ==> !FeedsGenre(rs[i], movies, g)
  {
    var t := GenreTable(rs, movies);
    RankedEntries(t);
    if exists i, g :: 0 <= i < |rs| && FeedsGenre(rs[i], movies, g) {
      var i, g :| 0 <= i < |rs| && FeedsGenre(rs[i], movies, g);
      GenreKeys(rs, movies, g);
    } else if t.buckets.Keys != {} {
      var g :| g in t.buckets;
      GenreKeys(rs, movies, g);
    }
  }

  /** The bucket table a successful gender view holds for "M" or "F". */
  function TableOf(b: GenderBuckets, gender: string): Table<string>
  {
    if gender == "M" then b.male else b.female
  }

  /** Some rating of the given gender reaches genre `g` exactly when some
      rating kept by the gender filter does. */
  lemma GenderReach(rs: seq<Rating>, users: Users, movies: Movies, gender: string, g: string)
    ensures var mine := OfGender(rs, users, gender);
            (exists i :: 0 <= i < |rs| && ByGender(rs[i], users, gender) && FeedsGenre(rs[i], movies, g))
            <==> (exists j :: 0 <= j < |mine| && FeedsGenre(mine[j], movies, g))
  {
    var mine := OfGender(rs, users, gender);
    if exists i :: 0 <= i < |rs| && ByGender(rs[i], users, gender) && FeedsGenre(rs[i], movies, g) {
      var i :| 0 <= i < |rs| && ByGender(rs[i], users, gender) && FeedsGenre(rs[i], movies, g);
      OfGenderMembers(rs, users, gender, rs[i]);
      var j :| 0 <= j < |mine| && mine[j] == rs[i];
      assert FeedsGenre(mine[j], movies, g);
    }
    if exists j :: 0 <= j < |mine| && FeedsGenre(mine[j], movies, g) {
      var j :| 0 <= j < |mine| && FeedsGenre(mine[j], movies, g);
      OfGenderMembers(rs, users, gender, mine[j]);
      var i :| 0 <= i < |rs| && rs[i] == mine[j];
      assert ByGender(rs[i], users, gender) && FeedsGenre(rs[i], movies, g);
    }
  }

  /** A successful view holds, for "M" and for "F", the genre table of that
      gender's ratings. */
  lemma TableOfGender(rs: seq<Rating>, users: Users, movies: Movies, gender: string)
    requires GenderTables(rs, users, movies).Success?
    requires gender == "M" || gender == "F"
    ensures TableOf(GenderTables(rs, users, movies).value, gender)
         == GenreTable(OfGender(rs, users, gender), movies)
  {
    GenderMatchesGenre(rs, users, movies);
  }

  /** Each gender's mean table has a key exactly for each genre reached by a
      rating of a known user of that gender, and maps it to the mean of the
      scores those ratings gave it. */
  lemma GenderMeans(rs: seq<Rating>, users: Users, movies: Movies, gender: string, g: string)
    requires GenderTables(rs, users, movies).Success?
    requires gender == "M" || gender == "F"
    ensures var t := TableOf(GenderTables(rs, users, movies).value, gender);
            Valid(t) &&
            (g in MeanTable(t) <==>
              exists i :: 0 <= i < |rs| && ByGender(rs[i], users, gender) && FeedsGenre(rs[i], movies, g))
    ensures var t := TableOf(GenderTables(rs, users, movies).value, gender);
            var mine := OfGender(rs, users, gender);
            Valid(t) && (g in MeanTable(t) ==>
              |GenreScores(mine, movies, g)| > 0 && MeanTable(t)[g] == Mean(GenreScores(mine, movies, g)))
  {
    TableOfGender(rs, users, movies, gender);
    GenreMeans(OfGender(rs, users, gender), movies, g);
    GenderReach(rs, users, movies, gender, g);
  }

  /** The per-gender ranking's `zip(*...)` fails exactly when no rating of a
      known user of that gender reached a genre bucket. */
  lemma GenderChartFails(rs: seq<Rating>, users: Users, movies: Movies, gender: string)
    requires GenderTables(rs, users, movies).Success?
    requires gender == "M" || gender == "F"
    ensures var t := TableOf(GenderTables(rs, users, movies).value, gender);
            Valid(t) &&
            (Unzip(RankByMean(t)).None? <==>
              forall i, g :: 0 <= i < |rs| && ByGender(rs[i], users, gender) ==> !FeedsGenre(rs[i], movies, g))
  {
    TableOfGender(rs, users, movies, gender);
    var mine := OfGender(rs, users, gender);
    GenreChartFails(mine, movies);
    if exists i, g :: 0 <= i < |rs| && ByGender(rs[i], users, gender) && FeedsGenre(rs[i], movies, g) {
      var i, g :| 0 <= i < |rs| && ByGender(rs[i], users, gender) && FeedsGenre(rs[i], movies, g);
      GenderReach(rs, users, movies, gender, g);
    }
    if exists j, g :: 0 <= j < |mine| && FeedsGenre(mine[j], movies, g) {
      var j, g :| 0 <= j < |mine| && FeedsGenre(mine[j], movies, g);
      GenderReach(rs, users, movies, gender, g);
    }
  }
}
