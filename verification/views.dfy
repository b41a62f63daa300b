/**
  The aggregation loops of the three dashboard views, each a left fold over
  the ratings in file order:
  - genre buckets: every score of a rating whose movie is known, appended to
    the bucket of every entry of the movie's genre list;
  - year buckets: the same ratings, appended to the bucket of the year
    embedded in the movie's title, when there is one;
  - gender-by-genre buckets: ratings whose user and movie are both known,
    appended under the user's gender, which must be "M" or "F".
 */
module Views {
  import opened Options
  import opened Records
  import opened Titles
  import opened Buckets

  type Movies = map<int, Movie>
  type Users = map<int, User>

  // ---------------------------------------------------------------------
  // Genre buckets
  // ---------------------------------------------------------------------

  /** The loop body for one rating: `for genre in genres: genre_ratings[genre].append(rating)`
      when the movie is known, nothing otherwise. */
  function GenreStep(t: Table<string>, r: Rating, movies: Movies): (t': Table<string>)
    requires Valid(t)
    ensures Valid(t')
  {
    if r.movie in movies then AddAll(t, movies[r.movie].genres, r.score) else t
  }

  function GenreTable(rs: seq<Rating>, movies: Movies): (t: Table<string>)
    ensures Valid(t)
    decreases |rs|
  {
    if |rs| == 0 then Empty()
    else GenreStep(GenreTable(rs[..|rs| - 1], movies), rs[|rs| - 1], movies)
  }

  /** Every (rating, genre-list entry) incidence for ratings of known
      movies, flattened in rating order, then in genre-list order. */
  function GenreIncidences(rs: seq<Rating>, movies: Movies): seq<string>
    decreases |rs|
  {
    if |rs| == 0 then []
    else
      var r := rs[|rs| - 1];
      GenreIncidences(rs[..|rs| - 1], movies) + (if r.movie in movies then movies[r.movie].genres else [])
  }

  /** The genre buckets are iterated in order of first incidence: the
      iteration order is the incidence list with repeats dropped. */
  lemma {:induction false} GenreOrder(rs: seq<Rating>, movies: Movies)
    ensures GenreTable(rs, movies).order == Dedup(GenreIncidences(rs, movies))
    decreases |rs|
  {
    if |rs| > 0 {
      var init := rs[..|rs| - 1];
      var r := rs[|rs| - 1];
      var t0 := GenreTable(init, movies);
      var before := GenreIncidences(init, movies);
      GenreOrder(init, movies);
      if r.movie in movies {
        var gs := movies[r.movie].genres;
        calc {
          GenreTable(rs, movies).order;
          AddAll(t0, gs, r.score).order;
          { AddAllOrder(t0, gs, r.score); }
          Extend(Dedup(before), gs);
          { ExtendConcat([], before, gs); }
          Dedup(before + gs);
        }
      } else {
        assert GenreIncidences(rs, movies) == before + [];
        assert before + [] == before;
      }
    }
  }

  /** Reference definition, genre by genre: the scores `g` receives, one copy
      per occurrence of `g` in the genre list of each rating's known movie,
      in rating order. */
  function GenreScores(rs: seq<Rating>, movies: Movies, g: string): seq<real>
    decreases |rs|
  {
    if |rs| == 0 then []
    else
      var r := rs[|rs| - 1];
      GenreScores(rs[..|rs| - 1], movies, g)
        + (if r.movie in movies then Repeat(r.score, Count(movies[r.movie].genres, g)) else [])
  }

  /** Number of (rating, genre-list entry) incidences for genre `g`. */
  function Incidences(rs: seq<Rating>, movies: Movies, g: string): nat
    decreases |rs|
  {
    if |rs| == 0 then 0
    else
      var r := rs[|rs| - 1];
      Incidences(rs[..|rs| - 1], movies, g)
        + (if r.movie in movies then Count(movies[r.movie].genres, g) else 0)
  }

  /** A rating reaches genre `g` when its movie is known and lists `g`. */
  predicate FeedsGenre(r: Rating, movies: Movies, g: string)
  {
    r.movie in movies && g in movies[r.movie].genres
  }

  /** Each genre bucket holds exactly the scores the reference definition
      assigns to it, in rating order. */
  lemma {:induction false} GenreBucketContents(rs: seq<Rating>, movies: Movies, g: string)
    ensures Get(GenreTable(rs, movies), g) == GenreScores(rs, movies, g)
    decreases |rs|
  {
    if |rs| > 0 {
      GenreBucketContents(rs[..|rs| - 1], movies, g);
    }
  }

  /** A genre bucket's length is its number of incidences. */
  lemma {:induction false} GenreBucketLength(rs: seq<Rating>, movies: Movies, g: string)
    ensures |Get(GenreTable(rs, movies), g)| == Incidences(rs, movies, g)
    decreases |rs|
  {
    if |rs| > 0 {
      GenreBucketLength(rs[..|rs| - 1], movies, g);
    }
  }

  /** A genre has a bucket exactly when some rating of a known movie lists it. */
  lemma {:induction false} GenreKeys(rs: seq<Rating>, movies: Movies, g: string)
    ensures g in GenreTable(rs, movies).buckets <==>
            exists i :: 0 <= i < |rs| && FeedsGenre(rs[i], movies, g)
    decreases |rs|
  {
    if |rs| > 0 {
      var init := rs[..|rs| - 1];
      GenreKeys(init, movies, g);
      assert forall i :: 0 <= i < |init| ==> init[i] == rs[i];
      if exists i :: 0 <= i < |rs| && FeedsGenre(rs[i], movies, g) {
        var i :| 0 <= i < |rs| && FeedsGenre(rs[i], movies, g);
        if i < |init| {
          assert FeedsGenre(init[i], movies, g);
        }
      }
    }
  }

  // ---------------------------------------------------------------------
  // Year buckets
  // ---------------------------------------------------------------------

  /** The year a rating contributes to, if its movie is known and its
      title embeds one. */
  function RatingYear(r: Rating, movies: Movies): Option<nat>
  {
    if r.movie in movies then ExtractYear(movies[r.movie].title) else None
  }

  /** The loop body for one rating: `year_ratings[int(year)].append(rating)`
      when the movie is known and its title yields a year. */
  function YearStep(t: Table<int>, r: Rating, movies: Movies): (t': Table<int>)
    requires Valid(t)
    ensures Valid(t')
  {
    match RatingYear(r, movies)
    case Some(y) => Add(t, y, r.score)
    case None => t
  }

  function YearTable(rs: seq<Rating>, movies: Movies): (t: Table<int>)
    ensures Valid(t)
    decreases |rs|
  {
    if |rs| == 0 then Empty()
    else YearStep(YearTable(rs[..|rs| - 1], movies), rs[|rs| - 1], movies)
  }

  /** Reference definition, year by year: the scores of the ratings whose
      movie's title yields year `y`, in rating order. */
  function YearScores(rs: seq<Rating>, movies: Movies, y: int): seq<real>
    decreases |rs|
  {
    if |rs| == 0 then []
    else
      var r := rs[|rs| - 1];
      YearScores(rs[..|rs| - 1], movies, y)
        + (if RatingYear(r, movies) == Some(y) then [r.score] else [])
  }

  /** Each year bucket holds exactly the scores the reference assigns to it. */
  lemma {:induction false} YearBucketContents(rs: seq<Rating>, movies: Movies, y: int)
    ensures Get(YearTable(rs, movies), y) == YearScores(rs, movies, y)
    decreases |rs|
  {
    if |rs| > 0 {
      YearBucketContents(rs[..|rs| - 1], movies, y);
    }
  }

  /** A year has a bucket exactly when some rating's known movie carries it
      in its title. */
  lemma {:induction false} YearKeys(rs: seq<Rating>, movies: Movies, y: int)
    ensures y in YearTable(rs, movies).buckets <==>
            exists i :: 0 <= i < |rs| && RatingYear(rs[i], movies) == Some(y)
    decreases |rs|
  {
    if |rs| > 0 {
      var init := rs[..|rs| - 1];
      var last := rs[|rs| - 1];
      YearKeys(init, movies, y);
      YearStepKeys(rs, movies, y);
      assert rs == init + [last];
      ExistsStep(init, last, r => RatingYear(r, movies) == Some(y));
    }
  }

  /** Some element satisfies `p` exactly when an earlier one does or the last one does. */
  lemma ExistsStep<T>(init: seq<T>, last: T, p: T -> bool)
    ensures (exists i :: 0 <= i < |init + [last]| && p((init + [last])[i])) <==>
            (exists i :: 0 <= i < |init| && p(init[i])) || p(last)
  {
    var s := init + [last];
    assert s[|init|] == last;
    if exists i :: 0 <= i < |s| && p(s[i]) {
      var i :| 0 <= i < |s| && p(s[i]);
      if i < |init| {
        assert s[i] == init[i];
      }
    }
    if exists i :: 0 <= i < |init| && p(init[i]) {
      var i :| 0 <= i < |init| && p(init[i]);
      assert s[i] == init[i];
    }
  }

  /** One more rating adds at most the year of its own movie. */
  lemma YearStepKeys(rs: seq<Rating>, movies: Movies, y: int)
    requires |rs| > 0
    ensures y in YearTable(rs, movies).buckets <==>
            y in YearTable(rs[..|rs| - 1], movies).buckets || RatingYear(rs[|rs| - 1], movies) == Some(y)
  {
    var t0 := YearTable(rs[..|rs| - 1], movies);
    var last := rs[|rs| - 1];
    match RatingYear(last, movies)
    case Some(z) =>
      assert YearTable(rs, movies) == Add(t0, z, last.score);
    case None =>
      assert YearTable(rs, movies) == t0;
  }

  /** A rating whose movie is unknown changes neither the genre nor the year
      buckets, wherever it sits in the ratings: no bucket, no key order, no
      error. */
  lemma {:induction false} UnknownMovieIgnored(a: seq<Rating>, r: Rating, b: seq<Rating>, movies: Movies)
    requires r.movie !in movies
    ensures GenreTable(a + [r] + b, movies) == GenreTable(a + b, movies)
    ensures YearTable(a + [r] + b, movies) == YearTable(a + b, movies)
    decreases |b|
  {
    if |b| == 0 {
      assert (a + [r] + b)[..|a|] == a;
      assert a + b == a;
    } else {
      var b' := b[..|b| - 1];
      UnknownMovieIgnored(a, r, b', movies);
      assert (a + [r] + b)[..|a + [r] + b| - 1] == a + [r] + b';
      assert (a + b)[..|a + b| - 1] == a + b';
    }
  }

  // ---------------------------------------------------------------------
  // Gender-by-genre buckets
  // ---------------------------------------------------------------------

  /** `{'M': defaultdict(list), 'F': defaultdict(list)}`. */
  datatype GenderBuckets = GenderBuckets(male: Table<string>, female: Table<string>)

  predicate ValidBuckets(b: GenderBuckets)
  {
    Valid(b.male) && Valid(b.female)
  }

  /** A rating that takes part in the gender view: both ids are known. */
  predicate Joined(r: Rating, users: Users, movies: Movies)
  {
    r.user in users && r.movie in movies
  }

  /** A joined rating whose user's gender is neither "M" nor "F" and whose
      movie lists at least one genre: indexing the two-key dict raises
      KeyError. */
  predicate Offending(r: Rating, users: Users, movies: Movies)
  {
    && Joined(r, users, movies)
    && users[r.user].gender != "M" && users[r.user].gender != "F"
    && |movies[r.movie].genres| > 0
  }

  /** The loop body for one rating; an earlier failure stays a failure. */
  function GenderStep(acc: Result<GenderBuckets, string>, r: Rating, users: Users, movies: Movies)
    : (res: Result<GenderBuckets, string>)
    requires acc.Success? ==> ValidBuckets(acc.value)
    ensures res.Success? ==> ValidBuckets(res.value)
  {
    match acc
    case Failure(_) => acc
    case Success(b) =>
      if Joined(r, users, movies) then
        var gender := users[r.user].gender;
        var genres := movies[r.movie].genres;
        if gender == "M" then Success(b.(male := AddAll(b.male, genres, r.score)))
        else if gender == "F" then Success(b.(female := AddAll(b.female, genres, r.score)))
        else if |genres| == 0 then acc
        else Failure(gender)
      else acc
  }

  function GenderTables(rs: seq<Rating>, users: Users, movies: Movies): (res: Result<GenderBuckets, string>)
    ensures res.Success? ==> ValidBuckets(res.value)
    decreases |rs|
  {
    if |rs| == 0 then Success(GenderBuckets(Empty(), Empty()))
    else GenderStep(GenderTables(rs[..|rs| - 1], users, movies), rs[|rs| - 1], users, movies)
  }

  /** A rating by a known user of the given gender. */
  predicate ByGender(r: Rating, users: Users, gender: string)
  {
    r.user in users && users[r.user].gender == gender
  }

  /** The ratings of known users with the given gender, in order (their
      movies may or may not be known). */
  function OfGender(rs: seq<Rating>, users: Users, gender: string): (s: seq<Rating>)
    ensures |s| <= |rs|
    decreases |rs|
  {
    if |rs| == 0 then []
    else
      var r := rs[|rs| - 1];
      OfGender(rs[..|rs| - 1], users, gender)
        + (if ByGender(r, users, gender) then [r] else [])
  }

  /** The ratings kept by the gender filter are exactly those of known users
      with that gender. */
  lemma {:induction false} OfGenderMembers(rs: seq<Rating>, users: Users, gender: string, r: Rating)
    ensures r in OfGender(rs, users, gender) <==>
            r in rs && ByGender(r, users, gender)
    decreases |rs|
  {
    if |rs| > 0 {
      var init := rs[..|rs| - 1];
      OfGenderMembers(init, users, gender, r);
      assert rs == init + [rs[|rs| - 1]];
    }
  }

  /** One loop step keeps an earlier failure, and otherwise fails exactly on
      an offending rating, naming its user's gender. */
  lemma GenderStepOutcome(acc: Result<GenderBuckets, string>, r: Rating, users: Users, movies: Movies)
    requires acc.Success? ==> ValidBuckets(acc.value)
    ensures acc.Failure? ==> GenderStep(acc, r, users, movies) == acc
    ensures acc.Success? ==> (GenderStep(acc, r, users, movies).Failure? <==> Offending(r, users, movies))
    ensures acc.Success? && Offending(r, users, movies) ==>
              GenderStep(acc, r, users, movies).error == users[r.user].gender
  {
  }

  /** The view fails exactly when some rating is offending, and the error is
      the gender of the first offending rating. */
  lemma {:induction false} GenderFailure(rs: seq<Rating>, users: Users, movies: Movies)
    ensures GenderTables(rs, users, movies).Failure? <==>
            exists i :: 0 <= i < |rs| && Offending(rs[i], users, movies)
    ensures GenderTables(rs, users, movies).Failure? ==>
            exists i :: 0 <= i < |rs| && Offending(rs[i], users, movies)
              && GenderTables(rs, users, movies).error == users[rs[i].user].gender
              && forall j :: 0 <= j < i ==> !Offending(rs[j], users, movies)
    decreases |rs|
  {
    GenderFailsIff(rs, users, movies);
    if |rs| > 0 {
      var init := rs[..|rs| - 1];
      var last := rs[|rs| - 1];
      GenderFailure(init, users, movies);
      GenderStepOutcome(GenderTables(init, users, movies), last, users, movies);
      assert GenderTables(rs, users, movies) == GenderStep(GenderTables(init, users, movies), last, users, movies);
      if GenderTables(init, users, movies).Failure? {
        var i :| 0 <= i < |init| && Offending(init[i], users, movies)
          && GenderTables(init, users, movies).error == users[init[i].user].gender
          && forall j :: 0 <= j < i ==> !Offending(init[j], users, movies);
        assert forall j :: 0 <= j <= i ==> init[j] == rs[j];
        assert Offending(rs[i], users, movies);
      } else if Offending(last, users, movies) {
        assert forall j :: 0 <= j < |init| ==> init[j] == rs[j];
        assert forall j :: 0 <= j < |rs| - 1 ==> !Offending(rs[j], users, movies);
      }
    }
  }

  lemma {:induction false} GenderFailsIff(rs: seq<Rating>, users: Users, movies: Movies)
    ensures GenderTables(rs, users, movies).Failure? <==>
            exists i :: 0 <= i < |rs| && Offending(rs[i], users, movies)
    decreases |rs|
  {
    if |rs| > 0 {
      var init := rs[..|rs| - 1];
      var last := rs[|rs| - 1];
      GenderFailsIff(init, users, movies);
      GenderStepOutcome(GenderTables(init, users, movies), last, users, movies);
      assert rs == init + [last];
      ExistsStep(init, last, r => Offending(r, users, movies));
    }
  }

  /** When the view succeeds, each gender's table is the genre table of that
      gender's ratings alone: the "M" and "F" tables draw on disjoint sets of
      ratings and never interfere. */
  lemma {:induction false} GenderMatchesGenre(rs: seq<Rating>, users: Users, movies: Movies)
    requires GenderTables(rs, users, movies).Success?
    ensures GenderTables(rs, users, movies).value.male == GenreTable(OfGender(rs, users, "M"), movies)
    ensures GenderTables(rs, users, movies).value.female == GenreTable(OfGender(rs, users, "F"), movies)
    decreases |rs|
  {
    if |rs| > 0 {
      var init := rs[..|rs| - 1];
      var last := rs[|rs| - 1];
      assert GenderTables(init, users, movies).Success?;
      GenderMatchesGenre(init, users, movies);
      GenreOfGenderStep(rs, users, movies, "M");
      GenreOfGenderStep(rs, users, movies, "F");
    }
  }

  /** One more rating extends a gender's genre table by one genre step when
      the rating's user has that gender, and leaves it alone otherwise. */
  lemma GenreOfGenderStep(rs: seq<Rating>, users: Users, movies: Movies, gender: string)
    requires |rs| > 0
    ensures var init := rs[..|rs| - 1];
            var last := rs[|rs| - 1];
            var before := GenreTable(OfGender(init, users, gender), movies);
            GenreTable(OfGender(rs, users, gender), movies) ==
              if ByGender(last, users, gender)
              then GenreStep(before, last, movies) else before
  {
    var init := rs[..|rs| - 1];
    var last := rs[|rs| - 1];
    var s0 := OfGender(init, users, gender);
    if ByGender(last, users, gender) {
      assert OfGender(rs, users, gender) == s0 + [last];
      assert (s0 + [last])[..|s0|] == s0;
    } else {
      assert OfGender(rs, users, gender) == s0;
    }
  }

  /** Filtering by gender ignores ratings of users with another gender. */
  lemma {:induction false} OfGenderSkips(a: seq<Rating>, r: Rating, b: seq<Rating>, users: Users, gender: string)
    requires !ByGender(r, users, gender)
    ensures OfGender(a + [r] + b, users, gender) == OfGender(a + b, users, gender)
    decreases |b|
  {
    if |b| == 0 {
      assert (a + [r] + b)[..|a|] == a;
      assert a + b == a;
    } else {
      var b' := b[..|b| - 1];
      OfGenderSkips(a, r, b', users, gender);
      assert (a + [r] + b)[..|a + [r] + b| - 1] == a + [r] + b';
      assert (a + b)[..|a + b| - 1] == a + b';
    }
  }

  /** A rating by a female user, inserted anywhere, leaves the male table as
      it was (and symmetrically). */
  lemma GenderIsolation(a: seq<Rating>, r: Rating, b: seq<Rating>, users: Users, movies: Movies)
    requires r.user in users
    requires GenderTables(a + [r] + b, users, movies).Success?
    requires GenderTables(a + b, users, movies).Success?
    ensures users[r.user].gender == "F" ==>
      GenderTables(a + [r] + b, users, movies).value.male == GenderTables(a + b, users, movies).value.male
    ensures users[r.user].gender == "M" ==>
      GenderTables(a + [r] + b, users, movies).value.female == GenderTables(a + b, users, movies).value.female
  {
    GenderMatchesGenre(a + [r] + b, users, movies);
    GenderMatchesGenre(a + b, users, movies);
    if users[r.user].gender == "F" {
      OfGenderSkips(a, r, b, users, "M");
    }
    if users[r.user].gender == "M" {
      OfGenderSkips(a, r, b, users, "F");
    }
  }

  /** A rating whose user or movie is unknown changes nothing in the gender
      view, wherever it sits. */
  lemma {:induction false} UnjoinedRatingIgnored(a: seq<Rating>, r: Rating, b: seq<Rating>, users: Users, movies: Movies)
    requires !Joined(r, users, movies)
    ensures GenderTables(a + [r] + b, users, movies) == GenderTables(a + b, users, movies)
    decreases |b|
  {
    if |b| == 0 {
      assert (a + [r] + b)[..|a|] == a;
      assert a + b == a;
    } else {
      var b' := b[..|b| - 1];
      UnjoinedRatingIgnored(a, r, b', users, movies);
      assert (a + [r] + b)[..|a + [r] + b| - 1] == a + [r] + b';
      assert (a + b)[..|a + b| - 1] == a + b';
    }
  }
}
