/**
  Release-year extraction from a movie title, as the genre/year view does
  it: the title must contain both '(' and ')'; the text after the last '('
  with every ')' deleted must be a non-empty run of digits.
 */
module Titles {
  import opened Options
  import opened Text

  /** Python's `s.replace(c, '')`. */
  function RemoveAll(s: string, c: char): (r: string)
    ensures c !in r
    ensures forall x :: x in r <==> x in s && x != c
    ensures |r| <= |s|
    decreases |s|
  {
    if |s| == 0 then ""
    else (if s[0] == c then "" else [s[0]]) + RemoveAll(s[1..], c)
  }

  /** Deleting a character that does not occur changes nothing. */
  lemma {:induction false} RemoveAbsent(s: string, c: char)
    requires c !in s
    ensures RemoveAll(s, c) == s
    decreases |s|
  {
    if |s| > 0 {
      RemoveAbsent(s[1..], c);
      assert s == [s[0]] + s[1..];
    }
  }

  /** Deletion works piecewise over a concatenation. */
  lemma {:induction false} RemoveAppend(a: string, b: string, c: char)
    ensures RemoveAll(a + b, c) == RemoveAll(a, c) + RemoveAll(b, c)
    decreases |a|
  {
    if |a| > 0 {
      assert (a + b)[1..] == a[1..] + b;
      RemoveAppend(a[1..], b, c);
    } else {
      assert a + b == b;
    }
  }

  /** `title.split('(')[-1]`: the text after the last '(' (the whole title
      when there is none). */
  function AfterLastOpen(title: string): string
  {
    var parts := Split(title, "(");
    parts[|parts| - 1]
  }

  /** The year embedded in a title, if any. */
  function ExtractYear(title: string): (y: Option<nat>)
    ensures y.Some? ==> '(' in title && ')' in title
  {
    if '(' in title && ')' in title then
      var digits := RemoveAll(AfterLastOpen(title), ')');
      if IsDigits(digits) then Some(DigitsValue(digits)) else None
    else None
  }

  /** Whatever precedes the last '(' plays no part: the year depends only on
      the text after it (and on a ')' occurring somewhere). */
  lemma YearFromLastOpen(p: string, tail: string)
    requires '(' !in tail
    ensures var title := p + "(" + tail;
            var digits := RemoveAll(tail, ')');
            ExtractYear(title) ==
              if ')' in title && IsDigits(digits) then Some(DigitsValue(digits)) else None
  {
    var title := p + "(" + tail;
    assert title[|p|] == '(';
    LastPieceAfterSep(p, '(', tail);
    assert AfterLastOpen(title) == tail;
    if ')' in title {
      assert ExtractYear(title) == if IsDigits(RemoveAll(tail, ')')) then Some(DigitsValue(RemoveAll(tail, ')'))) else None;
    } else {
      assert ExtractYear(title) == None;
    }
  }

  /** A title ending in a parenthesised run of digits yields that number,
      whatever comes before it. */
  lemma YearOfTitle(p: string, d: string)
    requires IsDigits(d)
    ensures ExtractYear(p + "(" + d + ")") == Some(DigitsValue(d))
  {
    var tail := d + ")";
    var title := p + "(" + tail;
    assert '(' !in tail && ')' !in d by {
      forall k | 0 <= k < |d| ensures d[k] != '(' && d[k] != ')' { assert IsDigit(d[k]); }
      assert tail[|d|] == ')';
    }
    assert RemoveAll(tail, ')') == d by {
      RemoveAppend(d, ")", ')');
      RemoveAbsent(d, ')');
      assert RemoveAll(")", ')') == "";
    }
    assert title[|p| + 1 + |d|] == ')';
    YearFromLastOpen(p, tail);
    assert p + "(" + d + ")" == title;
  }

  /** "Toy Story (1995)" yields 1995. */
  lemma YearOfToyStory()
    ensures ExtractYear("Toy Story (1995)") == Some(1995)
  {
    assert "Toy Story (1995)" == "Toy Story " + "(" + "1995" + ")";
    YearOfTitle("Toy Story ", "1995");
    assert DigitsValue("1995") == 1995 by {
      assert "1995"[..3] == "199";
      assert "199"[..2] == "19";
      assert "19"[..1] == "1";
      assert "1"[..0] == "";
    }
  }

  /** Text after the closing parenthesis spoils the year. */
  lemma NoYearWithTrailingText()
    ensures ExtractYear("Foo (1995) bar") == None
  {
    var tail := "1995) bar";
    var title := "Foo " + "(" + tail;
    assert "Foo (1995) bar" == title;
    TextAfterYear("Foo ", tail, 5);
  }

  /** A title whose text after the last '(' holds a character other than a
      digit or ')' has no year. */
  lemma TextAfterYear(p: string, tail: string, k: nat)
    requires '(' !in tail
    requires k < |tail| && !IsDigit(tail[k]) && tail[k] != ')'
    ensures ExtractYear(p + "(" + tail) == None
  {
    YearFromLastOpen(p, tail);
    var digits := RemoveAll(tail, ')');
    assert tail[k] in digits;
  }

  /** Empty parentheses hold no year. */
  lemma NoYearInEmptyParens()
    ensures ExtractYear("X ()") == None
  {
    assert "X ()" == "X " + "(" + ")";
    YearFromLastOpen("X ", ")");
    assert RemoveAll(")", ')') == "";
  }

  /** A title lacking either parenthesis has no year. */
  lemma NoYearWithoutParens(title: string)
    requires '(' !in title || ')' !in title
    ensures ExtractYear(title) == None
  {
  }

  lemma NoYearInUntitled()
    ensures ExtractYear("Untitled") == None
  {
    NoYearWithoutParens("Untitled");
  }
}
