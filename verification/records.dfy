/**
  The three record kinds of the dataset and the per-line decoders of the
  loaders `load_ratings`, `load_movies` and `load_users`. Each decoder takes
  one already-read, already-stripped line; a wrong field count or a field
  that does not convert gives `None`, which aborts the whole load.
 */
module Records {
  import opened Options
  import opened Text

  /** One rating: (user id, movie id, score); the timestamp is dropped. */
  datatype Rating = Rating(user: int, movie: int, score: real)

  /** A movie entry: its title (which may embed a year) and its genre list. */
  datatype Movie = Movie(title: string, genres: seq<string>)

  /** A user entry; the zip code is dropped. */
  datatype User = User(gender: string, age: int, occupation: int)

  const FieldSep := "::"
  const GenreSep := "|"

  /** `user_id::movie_id::rating::timestamp`: exactly four fields, integer ids
      and a numeric score; the timestamp is not inspected. */
  function ParseRatingLine(line: string): (r: Option<Rating>)
    ensures |Split(line, FieldSep)| != 4 ==> r.None?
    ensures r.Some? ==>
      var f := Split(line, FieldSep);
      && ParseInt(f[0]) == Some(r.value.user)
      && ParseInt(f[1]) == Some(r.value.movie)
      && ParseScore(f[2]) == Some(r.value.score)
    ensures var f := Split(line, FieldSep);
            |f| == 4 && ParseInt(f[0]).Some? && ParseInt(f[1]).Some? && ParseScore(f[2]).Some? ==> r.Some?
  {
    var f := Split(line, FieldSep);
    if |f| != 4 then None
    else
      match (ParseInt(f[0]), ParseInt(f[1]), ParseScore(f[2]))
      case (Some(u), Some(m), Some(x)) => Some(Rating(u, m, x))
      case _ => None
  }

  /** `movie_id::title::genres`: exactly three fields and an integer id; the
      genre field is split on '|' (always at least one genre). */
  function ParseMovieLine(line: string): (r: Option<(int, Movie)>)
    ensures |Split(line, FieldSep)| != 3 ==> r.None?
    ensures r.Some? ==>
      var f := Split(line, FieldSep);
      && ParseInt(f[0]) == Some(r.value.0)
      && r.value.1.title == f[1]
      && Join(r.value.1.genres, GenreSep) == f[2]
      && |r.value.1.genres| >= 1
      && forall k: nat, i: nat :: k < |r.value.1.genres| ==> !OccursAt(r.value.1.genres[k], GenreSep, i)
    ensures var f := Split(line, FieldSep);
            |f| == 3 && ParseInt(f[0]).Some? ==> r.Some?
  {
    var f := Split(line, FieldSep);
    if |f| != 3 then None
    else
      match ParseInt(f[0])
      case Some(id) =>
        SplitThenJoin(f[2], GenreSep);
        Some((id, Movie(f[1], Split(f[2], GenreSep))))
      case None => None
  }

  /** `user_id::gender::age::occupation::zip`: exactly five fields, integer
      id, age and occupation; the zip code is not inspected. */
  function ParseUserLine(line: string): (r: Option<(int, User)>)
    ensures |Split(line, FieldSep)| != 5 ==> r.None?
    ensures r.Some? ==>
      var f := Split(line, FieldSep);
      && ParseInt(f[0]) == Some(r.value.0)
      && r.value.1.gender == f[1]
      && ParseInt(f[2]) == Some(r.value.1.age)
      && ParseInt(f[3]) == Some(r.value.1.occupation)
    ensures var f := Split(line, FieldSep);
            |f| == 5 && ParseInt(f[0]).Some? && ParseInt(f[2]).Some? && ParseInt(f[3]).Some? ==> r.Some?
  {
    var f := Split(line, FieldSep);
    if |f| != 5 then None
    else
      match (ParseInt(f[0]), ParseInt(f[2]), ParseInt(f[3]))
      case (Some(id), Some(age), Some(occupation)) => Some((id, User(f[1], age, occupation)))
      case _ => None
  }

  lemma IntFieldClean(i: int)
    ensures Clean(ShowInt(i), FieldSep)
  {
    ShowIntHasNoColon(i);
    CleanWithoutLead(ShowInt(i), FieldSep);
  }

  /** A ratings line written from its fields decodes to exactly those fields,
      whatever the timestamp text is (as long as it holds no "::"). */
  lemma {:induction false} RatingLineRoundTrip(user: int, movie: int, scoreText: string, timestamp: string)
    requires ParseScore(scoreText).Some?
    requires Find(timestamp, FieldSep).None?
    ensures ParseRatingLine(Join([ShowInt(user), ShowInt(movie), scoreText, timestamp], FieldSep))
         == Some(Rating(user, movie, ParseScore(scoreText).value))
  {
    var parts := [ShowInt(user), ShowInt(movie), scoreText, timestamp];
    IntFieldClean(user);
    IntFieldClean(movie);
    CleanWithoutLead(scoreText, FieldSep);
    JoinThenSplit(parts, FieldSep);
    ParseShowInt(user);
    ParseShowInt(movie);
  }

  /** A movies line written from an id, a title and a genre list decodes to
      that entry. */
  lemma {:induction false} MovieLineRoundTrip(id: int, title: string, genres: seq<string>)
    requires |genres| >= 1
    requires forall k :: 0 <= k < |genres| ==> '|' !in genres[k]
    requires Clean(title, FieldSep)
    requires Find(Join(genres, GenreSep), FieldSep).None?
    ensures ParseMovieLine(Join([ShowInt(id), title, Join(genres, GenreSep)], FieldSep))
         == Some((id, Movie(title, genres)))
  {
    var parts := [ShowInt(id), title, Join(genres, GenreSep)];
    IntFieldClean(id);
    JoinThenSplit(parts, FieldSep);
    ParseShowInt(id);
    forall k | 0 <= k < |genres|
      ensures Clean(genres[k], GenreSep)
    {
      CleanSingle(genres[k], '|');
    }
    CleanHasNoSep(genres[|genres| - 1], GenreSep);
    JoinThenSplit(genres, GenreSep);
  }

  /** A users line written from its fields decodes to that entry. */
  lemma {:induction false} UserLineRoundTrip(id: int, gender: string, age: int, occupation: int, zip: string)
    requires Clean(gender, FieldSep) && Find(zip, FieldSep).None?
    ensures ParseUserLine(Join([ShowInt(id), gender, ShowInt(age), ShowInt(occupation), zip], FieldSep))
         == Some((id, User(gender, age, occupation)))
  {
    var parts := [ShowInt(id), gender, ShowInt(age), ShowInt(occupation), zip];
    IntFieldClean(id);
    IntFieldClean(age);
    IntFieldClean(occupation);
    JoinThenSplit(parts, FieldSep);
    ParseShowInt(id);
    ParseShowInt(age);
    ParseShowInt(occupation);
  }

  /** `load_ratings`: every line decoded in file order; one bad line aborts the load. */
  function LoadRatings(lines: seq<string>): (r: Option<seq<Rating>>)
    ensures r.Some? <==> forall i :: 0 <= i < |lines| ==> ParseRatingLine(lines[i]).Some?
    ensures r.Some? ==> |r.value| == |lines|
    ensures r.Some? ==> forall i :: 0 <= i < |lines| ==> ParseRatingLine(lines[i]) == Some(r.value[i])
    decreases |lines|
  {
    if |lines| == 0 then Some([])
    else
      var init := lines[..|lines| - 1];
      var last := lines[|lines| - 1];
      assert lines == init + [last];
      EveryLineStep(init, last, ParseRatingLine);
      match (LoadRatings(init), ParseRatingLine(last))
      case (Some(rs), Some(x)) =>
        DecodedStep(init, last, ParseRatingLine, rs, x);
        Some(rs + [x])
      case _ => None
  }

  /** Every line decodes exactly when every line but the last does and the
      last does too. */
  lemma EveryLineStep<T>(init: seq<string>, last: string, parse: string -> Option<T>)
    ensures (forall i :: 0 <= i < |init + [last]| ==> parse((init + [last])[i]).Some?) <==>
            (forall i :: 0 <= i < |init| ==> parse(init[i]).Some?) && parse(last).Some?
  {
    var lines := init + [last];
    assert lines[|init|] == last;
    assert forall i :: 0 <= i < |init| ==> lines[i] == init[i];
  }

  lemma DecodedStep<T>(init: seq<string>, last: string, parse: string -> Option<T>, rs: seq<T>, x: T)
    requires |rs| == |init|
    requires forall i :: 0 <= i < |init| ==> parse(init[i]) == Some(rs[i])
    requires parse(last) == Some(x)
    ensures forall i :: 0 <= i < |init| + 1 ==> parse((init + [last])[i]) == Some((rs + [x])[i])
  {
  }

  /** The id a decoded keyed line carries (only meaningful when it decodes). */
  function KeyOf<V>(parse: string -> Option<(int, V)>, line: string): int
  {
    match parse(line)
    case Some(entry) => entry.0
    case None => 0
  }

  /** The shared shape of `load_movies` and `load_users`: lines decoded in
      file order into a table keyed by id; one bad line aborts the load. */
  function LoadKeyed<V>(lines: seq<string>, parse: string -> Option<(int, V)>): (r: Option<map<int, V>>)
    ensures r.Some? <==> forall i :: 0 <= i < |lines| ==> parse(lines[i]).Some?
    ensures r.Some? ==> r.value.Keys == set i | 0 <= i < |lines| :: KeyOf(parse, lines[i])
    decreases |lines|
  {
    if |lines| == 0 then Some(map[])
    else
      var init := lines[..|lines| - 1];
      var last := lines[|lines| - 1];
      match (LoadKeyed(init, parse), parse(last))
      case (Some(m), Some(entry)) =>
        assert forall i :: 0 <= i < |init| ==> init[i] == lines[i];
        assert (set i | 0 <= i < |lines| :: KeyOf(parse, lines[i]))
            == (set i | 0 <= i < |init| :: KeyOf(parse, init[i])) + {entry.0};
        Some(m[entry.0 := entry.1])
      case _ => None
  }

  /** A later line with the same id replaces an earlier one: the table holds,
      for every id, the entry of the last line carrying it. */
  lemma {:induction false} LoadKeyedLastWins<V>(lines: seq<string>, parse: string -> Option<(int, V)>, i: nat)
    requires LoadKeyed(lines, parse).Some?
    requires i < |lines|
    requires forall j :: i < j < |lines| ==> KeyOf(parse, lines[j]) != KeyOf(parse, lines[i])
    ensures var id := KeyOf(parse, lines[i]);
            parse(lines[i]) == Some((id, LoadKeyed(lines, parse).value[id]))
    decreases |lines|
  {
    var init := lines[..|lines| - 1];
    assert LoadKeyed(init, parse).Some?;
    if i < |lines| - 1 {
      assert init[i] == lines[i];
      forall j | i < j < |init|
        ensures KeyOf(parse, init[j]) != KeyOf(parse, init[i])
      {
        assert init[j] == lines[j];
      }
      LoadKeyedLastWins(init, parse, i);
    }
  }

  /** `load_movies`. */
  function LoadMovies(lines: seq<string>): (r: Option<map<int, Movie>>)
    ensures r.Some? <==> forall i :: 0 <= i < |lines| ==> ParseMovieLine(lines[i]).Some?
    ensures r.Some? ==> r.value.Keys == set i | 0 <= i < |lines| :: KeyOf(ParseMovieLine, lines[i])
  {
    LoadKeyed(lines, ParseMovieLine)
  }

  /** `load_users`. */
  function LoadUsers(lines: seq<string>): (r: Option<map<int, User>>)
    ensures r.Some? <==> forall i :: 0 <= i < |lines| ==> ParseUserLine(lines[i]).Some?
    ensures r.Some? ==> r.value.Keys == set i | 0 <= i < |lines| :: KeyOf(ParseUserLine, lines[i])
  {
    LoadKeyed(lines, ParseUserLine)
  }
}
