# Movie dashboard aggregation core, in Dafny

The two dashboard scripts `visualization.py` and `visuliztion.py` are near
line-for-line copies. Each one loads the MovieLens-style files `ratings.dat`,
`movies.dat` and `users.dat` and groups the rating scores into buckets. It
then charts four things: the mean score per genre, the mean score per
release year, the mean score per genre for each gender, and a genre-by-genre
correlation heatmap. This project models the computational part shared by
both scripts as pure Dafny functions, lemmas and two methods, and proves
what that part guarantees.

- `options.dfy`, module `Options`: the `Option` and `Result` wrappers. `None`
  stands for a line or table that Python would reject with an exception.
  `Failure` carries the offending gender of a `KeyError`.
- `text.dfy`, module `Text`: Python's `str.split` for a non-empty separator
  (leftmost, non-overlapping occurrences; always at least one piece), `join`,
  `int()` and `float()` on plain ASCII decimal text, and `str.isdigit`.
- `records.dfy`, module `Records`: the `Rating`, `Movie` and `User` records,
  the per-line decoders of `load_ratings`, `load_movies` and `load_users`,
  and the loaders over a sequence of lines. One bad line aborts the whole
  load, and a later line with the same id overwrites an earlier one.
- `titles.dfy`, module `Titles`: release-year extraction from a title.
- `buckets.dfy`, module `Buckets`: `defaultdict(list)` as `Table<K>`. It is a
  map from key to a non-empty sequence of scores. It also records the keys
  in insertion order, which fixes `list(d.keys())` and `d.items()`.
- `stats.dfy`, module `Stats`: these `np.mean` and the mean tables use exact
  reals. This module also has the two `sorted(...)` orderings used for
  plotting, and `zip(*pairs)`, which fails on an empty sequence.
- `views.dfy`, module `Views`: the aggregation loops.
  - The genre buckets and the year buckets.
  - The gender-by-genre buckets. A known user whose gender is neither `"M"`
    nor `"F"` makes the loop fail.
  - A reference definition of what each bucket must hold.
- `dashboard.dfy`, module `Dashboard`: the mean tables and charts built on
  the views.
  - What each mean table contains.
  - When the `zip(*sorted(...))` of a chart fails.
  - A worked two-rating example.
- `correlation.dfy`, module `Correlation`: the heatmap.
  - The matrix fill loop is a method. Its loop invariants prove the matrix
    is square and symmetric.
  - Each cell `[i][j]` with i <= j holds `corr` of the equal-length prefixes
    of the two buckets, or 0 when that length is below 2.
  - The Pearson correlation `corr` is a function parameter, and nothing is
    assumed about it.

Where the two scripts differ, they differ only in chart rendering, except
for one case. `visuliztion.py` additionally sorts each gender's mean table
for plotting (line 103), and `Dashboard.GenderChartFails` covers that. The
line ranges correspond as follows:

| code | `visualization.py` | `visuliztion.py` |
|---|---|---|
| parsing | 15-16, 23-24, 31-32 | 15-16, 23-24, 31-32 |
| genre and year loop | 58-70 | 48-62 |
| means and sorts | 73-74, 85-86 | 65-66, 75-76 |
| gender loop | 98-109 | 88-99 |
| heatmap | 152-169 | 113-130 |

A known user whose gender is neither `"M"` nor `"F"`, rating a known movie,
makes `gender_genre_ratings[gender]` raise `KeyError`. The model follows the
code here, as `Failure(gender)`, and does not silently drop such ratings.
The error needs a movie that lists at least one genre, because the indexing
sits inside the genre loop. A movie read by the loader always has at least
one genre.

## Model

| member | source | states |
|---|---|---|
| Text.Find | visualization.py:15 | When the separator occurs, the result is the position of its leftmost occurrence, with no occurrence before it. Otherwise it occurs nowhere. |
| Text.Split | visualization.py:15 | `split` always yields at least one piece, and no piece contains the separator. |
| Text.SplitThenJoin | visualization.py:24 | Joining the pieces of a split with the same separator gives back the original text. |
| Text.JoinThenSplit | visualization.py:15 | Splitting a join of fields that cannot produce an early separator gives back exactly those fields. |
| Text.LastPieceAfterSep | visualization.py:68 | `split('(')[-1]` is the text after the last `(`. |
| Text.ParseInt | visualization.py:16 | `int()` accepts exactly a non-empty run of digits, optionally after one `-` or `+`. The value is that of the digits, negated after a `-`. |
| Text.ParseShowInt | visualization.py:16 | The decimal text of every integer converts back to that integer. |
| Text.ParseScore | visualization.py:16 | An accepted score field contains no `:`, so it can never swallow a field separator. |
| Text.ParseUnsignedWhole | visualization.py:16 | Text without a `.` is accepted exactly when it is a non-empty run of digits, and then it reads as that whole number. |
| Text.ParseUnsignedPoint | visualization.py:16 | Text whose first `.` is at position k is accepted exactly when only digits stand on both sides and the text is more than the point alone. It reads as the whole part plus the fraction. |
| Text.ParseScoreNegative | visualization.py:16 | A leading `-` is accepted exactly when the rest is, and negates its value. |
| Text.ParseScorePositive | visualization.py:16 | A leading `+` is dropped. |
| Text.UnsignedScore | visualization.py:16 | Text that does not start with a sign is read unsigned. |
| Text.LeadingPointScore | visualization.py:16 | `".5"` reads as one half. |
| Text.ParseScoreWhole | visualization.py:16 | `float()` reads a whole number written in decimal as exactly that number. |
| Text.ParseScoreFraction | visualization.py:16 | `float()` reads `digits.digits` as the whole part plus the fraction over the matching power of ten. |
| Records.ParseRatingLine | visualization.py:15-16 | A ratings line decodes exactly when it has four `::` fields whose first two convert with `int()` and whose third converts with `float()`, in any form those accept, such as `01` or `+5`. The user id, the movie id and the score are those conversions. The timestamp is dropped. |
| Records.RatingLineRoundTrip | visualization.py:15-16 | A ratings line written from a user id, a movie id, a score text and a timestamp decodes to exactly that rating. |
| Records.ParseMovieLine | visualization.py:23-24 | A movies line decodes exactly when it has three fields and the first converts with `int()`. The title is field 2 unchanged. The genre list has at least one entry, no entry contains `\|`, and it joins back to field 3 with `\|`. These facts fix the list. |
| Records.MovieLineRoundTrip | visualization.py:23-24 | A movies line written from an id, a title and a non-empty list of genres without `\|` decodes to exactly that entry. |
| Records.ParseUserLine | visuliztion.py:31-32 | A users line decodes exactly when it has five fields and the id, age and occupation fields convert with `int()`. The fields give gender, age and occupation, and the zip code is dropped. |
| Records.UserLineRoundTrip | visuliztion.py:31-32 | A users line written from its fields decodes to exactly that user. |
| Records.LoadRatings | visualization.py:11-17 | The load succeeds exactly when every line decodes. It then holds one rating per line, in file order, each the decoding of its line. |
| Records.LoadMovies | visualization.py:19-25 | `load_movies` succeeds exactly when every line decodes as a movies line. Its ids are exactly the lines' ids. Which entry an id gets is stated on `Records.LoadKeyedLastWins`. |
| Records.LoadUsers | visualization.py:27-33 | `load_users` succeeds exactly when every line decodes as a users line. Its ids are exactly the lines' ids. Which entry an id gets is stated on `Records.LoadKeyedLastWins`. |
| Records.LoadKeyed | visualization.py:19-25 | A keyed load succeeds exactly when every line decodes. Its ids are exactly the ids of the lines. |
| Records.LoadKeyedLastWins | visualization.py:24 | For every id, the table holds the entry of the last line carrying that id. |
| Titles.RemoveAll | visualization.py:68 | `replace(c, '')` keeps every character except `c`, and no `c` remains. |
| Titles.ExtractYear | visualization.py:67-70 | A year is produced only for titles that contain both `(` and `)`. |
| Titles.YearFromLastOpen | visualization.py:67-69 | The year depends only on the text after the last `(`, with `)` removed. That text must be a non-empty run of digits, and a `)` must occur in the title. |
| Titles.YearOfTitle | visualization.py:67-70 | A title ending in `(digits)` yields the value of those digits, whatever comes before. |
| Titles.YearOfToyStory | visualization.py:67-70 | `"Toy Story (1995)"` yields 1995. |
| Titles.TextAfterYear | visuliztion.py:59-61 | Any character other than a digit or `)` after the last `(` means the title has no year. |
| Titles.NoYearWithTrailingText | visualization.py:67-69 | `"Foo (1995) bar"` has no year. |
| Titles.NoYearInEmptyParens | visualization.py:69 | `"X ()"` has no year. |
| Titles.NoYearWithoutParens | visualization.py:67 | A title lacking `(` or lacking `)` has no year. |
| Titles.NoYearInUntitled | visualization.py:67 | `"Untitled"` has no year. |
| Buckets.Add | visualization.py:66 | `d[k].append(x)` extends only `k`'s bucket, by `x` at its end. A new key goes to the end of the key order. |
| Buckets.AddAllOrder | visualization.py:65-66 | After appending to each listed key, the key order is the old order followed by the listed keys not yet present, each at its first occurrence in the list. |
| Buckets.DedupOrder | visualization.py:159 | The order with repeats dropped lists each element exactly once, and in the order of the elements' first occurrences. |
| Buckets.AddAll | visualization.py:65-66 | Appending to each listed genre adds to every key as many copies of the score as the key occurs in the list. The key set grows by exactly the listed keys. |
| Stats.Mean | visualization.py:73 | The mean of a non-empty bucket lies between its smallest and largest score. |
| Stats.MeanOfEqualScores | visualization.py:73 | The mean of a bucket of equal scores is that score. |
| Stats.MeanTable | visualization.py:73 | The mean table has exactly the bucket keys, and each mean lies within its bucket's range. |
| Stats.Items | visualization.py:73-74 | `items()` lists the keys in insertion order, each paired with its mean. |
| Stats.SortBy | visualization.py:74 | The sort used by both charts returns a permutation of its input, sorted by the key. The charts' orders are stated on `Stats.RankByMean` and `Stats.ByYear`. |
| Stats.RankByMean | visualization.py:74 | The genre ranking is a permutation of the items, ordered by mean from highest to lowest. |
| Stats.RankedEntries | visualization.py:74 | The ranking lists every key exactly once, with its mean, and nothing else. |
| Stats.ByYear | visualization.py:86 | The year series is a permutation of the items, ordered by year from oldest to newest. |
| Stats.YearEntries | visualization.py:86 | The year series lists every year once, with its mean, in strictly increasing year order. |
| Stats.Unzip | visualization.py:74 | `zip(*pairs)` fails exactly on an empty sequence. Otherwise it yields two sequences of the same length that pair up into the input. |
| Views.GenreTable | visualization.py:58-66 | The genre loop keeps the table well formed: each key is listed once, the keys are exactly those with buckets, and no bucket is empty. Its contents, keys and order are stated on `Views.GenreBucketContents`, `Views.GenreKeys` and `Views.GenreOrder`. |
| Views.GenreOrder | visualization.py:152-159 | The genre keys are listed in the order in which each genre is first met, rating by rating and then along each genre list, for ratings of known movies. |
| Views.YearTable | visualization.py:58-70 | The year loop keeps the table well formed, as for the genre table. Its contents and keys are stated on `Views.YearBucketContents` and `Views.YearKeys`. |
| Views.GenreBucketContents | visualization.py:61-66 | Each genre bucket holds, in rating order, one copy of a rating's score per occurrence of the genre in its known movie's genre list. |
| Views.GenreBucketLength | visualization.py:61-66 | A genre bucket's length is its number of (rating, genre-list entry) incidences. |
| Views.GenreKeys | visualization.py:61-66 | A genre has a bucket exactly when some rating of a known movie lists it. |
| Views.YearBucketContents | visualization.py:61-70 | Each year bucket holds, in rating order, the scores of the ratings whose known movie's title yields that year. |
| Views.YearKeys | visualization.py:61-70 | A year has a bucket exactly when some rating's known movie yields it. |
| Views.UnknownMovieIgnored | visuliztion.py:51-52 | A rating of an unknown movie changes neither the genre table nor the year table, wherever it sits. It changes no bucket and no key order, and raises no error. |
| Views.OfGenderMembers | visualization.py:100-101 | The gender filter keeps exactly the ratings of known users with that gender. |
| Views.GenderTables | visualization.py:98-104 | When the gender loop succeeds, both the "M" and the "F" tables are well formed. When it fails and what each table holds are stated on `Views.GenderFailure` and `Views.GenderMatchesGenre`. |
| Views.GenderFailure | visualization.py:99-104 | The gender view fails exactly when some joined rating has a gender other than M or F and a movie with a genre. The error names the gender of the first such rating. |
| Views.GenderMatchesGenre | visualization.py:98-104 | When the gender view succeeds, the "M" table is the genre table of the male users' ratings, and likewise for "F". |
| Views.GenreOfGenderStep | visualization.py:99-104 | One more rating changes a gender's genre table only when its user has that gender. |
| Views.OfGenderSkips | visualization.py:100-101 | A rating of a user without the given gender does not pass that gender's filter. |
| Views.GenderIsolation | visualization.py:98-104 | Inserting a female user's rating leaves the male table unchanged, and the reverse also holds. |
| Views.UnjoinedRatingIgnored | visualization.py:100 | A rating whose user or movie is unknown changes nothing in the gender view. |
| Dashboard.GenreMeans | visualization.py:73 | The genre-mean table has a key exactly for each genre that received a score. Each value is the mean of precisely the scores that genre received. |
| Dashboard.YearMeans | visualization.py:85 | The year-mean table has a key exactly for each year that received a score. Each value is the mean of precisely those scores. |
| Dashboard.GenreChartFails | visualization.py:73-74 | The genre chart's `zip(*sorted(...))` fails exactly when no rating reaches any genre. |
| Dashboard.YearChartFails | visualization.py:85-86 | The year chart's `zip(*sorted(...))` fails exactly when no rating's movie yields a year. |
| Dashboard.MeanOfTwo | visualization.py:73 | The mean of two scores is their average. |
| Dashboard.TwoRatingsOneGenre | visualization.py:61-73 | Two ratings of one known movie with a single genre produce one genre key, whose mean is their average. |
| Dashboard.TwoRatingsOneYear | visualization.py:61-85 | Two ratings of one known movie whose title yields a year produce one year key, whose mean is their average. |
| Dashboard.ToyStoryExample | visualization.py:61-85 | Scores 5 and 3 for `"Toy Story (1995)"` with genre Animation give genre means {Animation: 4} and year means {1995: 4}. |
| Dashboard.GenderMeans | visuliztion.py:96-99 | A gender's mean table has a key exactly for each genre reached by a rating of a user of that gender. Each value is the mean of those ratings' scores for that genre. |
| Dashboard.GenderChartFails | visuliztion.py:102-103 | A gender's `zip(*sorted(...))` fails exactly when no rating of a user of that gender reaches a genre. |
| Correlation.FillMatrix | visualization.py:159-169 | The matrix is n×n over the genres in key order, and symmetric. For i <= j, cell [i][j] is `corr` of both buckets cut to the shorter length when that length exceeds 1, and 0 otherwise. |
| Correlation.GenreCorrelation | visuliztion.py:113-130 | The heatmap's genres are exactly the genres seen in ratings of known movies. They are listed once each, in first-seen order: for a < b, genre a is first met before genre b, rating by rating and along each genre list. The matrix is square over them and symmetric, with the same cell rule as the fill. |
| Correlation.MatrixDimension | visuliztion.py:120-121 | The matrix dimension is the number of distinct genres seen in ratings of known movies. |
| Correlation.SeenAreKeys | visuliztion.py:113-120 | The genre bucket keys are exactly the genres seen in ratings of known movies. |
| Correlation.ShortPairIsZero | visualization.py:165-168 | A cell is 0 when its row or its column genre has fewer than two scores, on either side of the diagonal. |

## Left out

- Reading the files: `open`, ISO-8859-1 decoding and `line.strip()` (visualization.py:15, 23 and 31) are not modelled. The loaders take already-read, already-stripped lines.
- The module-level loading (visualization.py:35-37) is not modelled. Its results are passed in as parameters.
- The Streamlit UI is not modelled: titles, the visualization selector, and `st.pyplot`.
- The matplotlib and seaborn rendering is not modelled: figure sizes, bar widths, label annotation and colours.
- `np.corrcoef` numerics are not modelled: square roots, and NaN for constant inputs. The correlation is the uninterpreted parameter `corr`, so nothing is claimed about the diagonal.
- Scores and means are exact reals, not IEEE doubles, so rounding in `float()` and `np.mean` is not modelled.
- The `all_genres` list built from a set (visualization.py:112-114) and its `.get(genre, 0)` filling are not modelled. Set iteration order is unspecified, and the list only feeds the grouped bar chart.
- Text.ParseInt: models `int()` on ASCII sign-and-digits text only. Surrounding whitespace, `_` digit separators and non-ASCII digits, all of which Python also accepts, are not modelled.
- Text.ParseScore: models `float()` on plain decimal notation only. Exponents, `inf`/`nan`, whitespace and `_` separators are not modelled.
- Titles.ExtractYear: `str.isdigit()` also accepts non-ASCII digits, but the model accepts only `'0'..'9'`.
- Stats.SortBy: the contract does not state stability, that is, that items with equal keys keep their input order. Python's `sorted` is stable, and the model's insertion sort is too, but only sortedness and the permutation are proved.
- Stats.RankByMean: the contract does not state that genres with equal means keep their insertion order. Python's stable sort keeps it, and the model's insertion sort does too, but only the order by mean and the permutation are proved.
- Stats.ByYear: Python sorts `(year, mean)` pairs. Years are distinct keys, so this is the order by year that the contract states.
- Records.LoadMovies: the contract states when the load succeeds and which ids it holds. The last-line-wins rule for each id's entry is stated once, generically, on `Records.LoadKeyedLastWins`.
- Records.LoadUsers: as for `Records.LoadMovies`, the last-line-wins rule is stated on `Records.LoadKeyedLastWins`.
- An exception raised by a loader is not distinguished by kind. A wrong field count raises `ValueError` on unpacking, a bad number raises `ValueError` in conversion, and both become `None`.
