/**
  String primitives the dashboards rely on: Python's `str.split` with a
  non-empty separator, its inverse `sep.join`, and the digit-level parts of
  `int()` and `float()` restricted to ASCII.
 */
module Text {
  import opened Options

  /** `sep` occurs in `s` starting at position `i`. */
  predicate OccursAt(s: string, sep: string, i: nat)
  {
    i + |sep| <= |s| && s[i..i + |sep|] == sep
  }

  lemma OccursShift(s: string, sep: string)
    requires |s| > 0
    ensures forall i: nat :: 0 < i ==> (OccursAt(s, sep, i) <==> OccursAt(s[1..], sep, i - 1))
  {
    forall i: nat | 0 < i
      ensures OccursAt(s, sep, i) <==> OccursAt(s[1..], sep, i - 1)
    {
      if i + |sep| <= |s| {
        assert s[1..][i - 1..i - 1 + |sep|] == s[i..i + |sep|];
      }
    }
  }

  /** Position of the leftmost occurrence of `sep` in `s`. */
  function Find(s: string, sep: string): (r: Option<nat>)
    requires |sep| > 0
    ensures r.Some? ==> OccursAt(s, sep, r.value)
    ensures r.Some? ==> forall i: nat :: i < r.value ==> !OccursAt(s, sep, i)
    ensures r.None? ==> forall i: nat :: !OccursAt(s, sep, i)
    decreases |s|
  {
    if |s| < |sep| then None
    else if s[..|sep|] == sep then
      assert s[0..|sep|] == s[..|sep|];
      Some(0)
    else
      assert s[0..|sep|] == s[..|sep|];
      OccursShift(s, sep);
      match Find(s[1..], sep)
      case Some(i) => Some(i + 1)
      case None => None
  }

  /** An occurrence inside a prefix is an occurrence in the whole string. */
  lemma OccursInPrefix(s: string, n: nat, sep: string, i: nat)
    requires n <= |s|
    requires OccursAt(s[..n], sep, i)
    ensures OccursAt(s, sep, i) && i + |sep| <= n
  {
    assert s[..n][i..i + |sep|] == s[i..i + |sep|];
  }

  /** Python's `s.split(sep)` for a non-empty separator: the pieces between
      non-overlapping occurrences of `sep`, scanning left to right. */
  function Split(s: string, sep: string): (parts: seq<string>)
    requires |sep| > 0
    ensures |parts| >= 1
    ensures forall k: nat, i: nat :: k < |parts| ==> !OccursAt(parts[k], sep, i)
    decreases |s|
  {
    match Find(s, sep)
    case None => [s]
    case Some(i) =>
      var head := s[..i];
      assert forall j: nat :: !OccursAt(head, sep, j) by {
        forall j: nat | OccursAt(head, sep, j)
          ensures false
        {
          OccursInPrefix(s, i, sep, j);
        }
      }
      [head] + Split(s[i + |sep|..], sep)
  }

  /** Python's `sep.join(parts)`. */
  function Join(parts: seq<string>, sep: string): string
  {
    if |parts| == 0 then ""
    else if |parts| == 1 then parts[0]
    else parts[0] + sep + Join(parts[1..], sep)
  }

  /** Joining the pieces of a split restores the original line. */
  lemma {:induction false} SplitThenJoin(s: string, sep: string)
    requires |sep| > 0
    ensures Join(Split(s, sep), sep) == s
    decreases |s|
  {
    match Find(s, sep)
    case None =>
    case Some(i) =>
      var rest := Split(s[i + |sep|..], sep);
      SplitThenJoin(s[i + |sep|..], sep);
      assert Split(s, sep) == [s[..i]] + rest;
      assert ([s[..i]] + rest)[1..] == rest;
      assert s == s[..i] + s[i..i + |sep|] + s[i + |sep|..];
  }

  /** A field that can sit in front of `sep` without the separator being
      found earlier than intended: no occurrence of `sep` in `p + sep`
      starts inside `p`. */
  predicate Clean(p: string, sep: string)
  {
    forall i: nat :: i < |p| ==> !OccursAt(p + sep, sep, i)
  }

  /** For a one-character separator, being clean is just not containing it. */
  lemma CleanSingle(p: string, c: char)
    ensures Clean(p, [c]) <==> c !in p
  {
    if c in p {
      var i :| 0 <= i < |p| && p[i] == c;
      assert (p + [c])[i..i + 1] == [c];
      assert OccursAt(p + [c], [c], i);
    } else {
      forall i: nat | i < |p|
        ensures !OccursAt(p + [c], [c], i)
      {
        assert (p + [c])[i..i + 1] == [p[i]];
      }
    }
  }

  /** A field that avoids the separator's first character is clean. */
  lemma CleanWithoutLead(p: string, sep: string)
    requires |sep| > 0 && sep[0] !in p
    ensures Clean(p, sep)
  {
    forall i: nat | i < |p|
      ensures !OccursAt(p + sep, sep, i)
    {
      assert (p + sep)[i] == p[i];
      if i + |sep| <= |p + sep| {
        assert (p + sep)[i..i + |sep|][0] == (p + sep)[i];
      }
    }
  }

  /** A clean field followed by the separator is split exactly at its end. */
  lemma FindAfterClean(p: string, sep: string, rest: string)
    requires |sep| > 0 && Clean(p, sep)
    ensures Find(p + sep + rest, sep) == Some(|p|)
  {
    var s := p + sep + rest;
    assert s[|p|..|p| + |sep|] == sep;
    assert OccursAt(s, sep, |p|);
    forall i: nat | i < |p|
      ensures !OccursAt(s, sep, i)
    {
      assert !OccursAt(p + sep, sep, i);
      assert s[i..i + |sep|] == (p + sep)[i..i + |sep|];
    }
  }

  /** A clean field contains no separator. */
  lemma CleanHasNoSep(p: string, sep: string)
    requires |sep| > 0 && Clean(p, sep)
    ensures Find(p, sep).None?
  {
    forall i: nat | OccursAt(p, sep, i)
      ensures false
    {
      assert (p + sep)[i..i + |sep|] == p[i..i + |sep|];
      assert OccursAt(p + sep, sep, i);
    }
  }

  /** Splitting a join of clean fields gives the fields back. */
  lemma {:induction false} JoinThenSplit(parts: seq<string>, sep: string)
    requires |sep| > 0 && |parts| >= 1
    requires forall k :: 0 <= k < |parts| - 1 ==> Clean(parts[k], sep)
    requires Find(parts[|parts| - 1], sep).None?
    ensures Split(Join(parts, sep), sep) == parts
    decreases |parts|
  {
    if |parts| > 1 {
      var p := parts[0];
      var tail := Join(parts[1..], sep);
      FindAfterClean(p, sep, tail);
      var s := p + sep + tail;
      assert s[..|p|] == p;
      assert s[|p| + |sep|..] == tail;
      JoinThenSplit(parts[1..], sep);
      assert parts == [p] + parts[1..];
    }
  }

  /** The leftmost occurrence is unaffected by text appended after it. */
  lemma FindExtend(s: string, sep: string, t: string)
    requires |sep| > 0 && Find(s, sep).Some?
    ensures Find(s + t, sep) == Find(s, sep)
  {
    var i := Find(s, sep).value;
    OccursInConcat(s, t, sep, i);
    var v := Find(s + t, sep).value;
    if v < i {
      OccursInConcat(s, t, sep, v);
    }
  }

  /** Within `s`, an occurrence in `s + t` is an occurrence in `s`. */
  lemma OccursInConcat(s: string, t: string, sep: string, i: nat)
    requires i + |sep| <= |s|
    ensures OccursAt(s + t, sep, i) <==> OccursAt(s, sep, i)
  {
    assert (s + t)[i..i + |sep|] == s[i..i + |sep|];
  }

  /** A one-character separator that is not found does not occur. */
  lemma NotFoundSingle(s: string, c: char)
    requires Find(s, [c]).None?
    ensures c !in s
  {
    forall i | 0 <= i < |s|
      ensures s[i] != c
    {
      assert !OccursAt(s, [c], i);
      assert s[i..i + 1] == [s[i]];
    }
  }

  /** Splitting on a single character distributes over an occurrence of it. */
  lemma {:induction false} SplitSingleAppend(s: string, c: char, t: string)
    ensures Split(s + [c] + t, [c]) == Split(s, [c]) + Split(t, [c])
    decreases |s|
  {
    var sep := [c];
    var whole := s + [c] + t;
    match Find(s, sep)
    case None =>
      NotFoundSingle(s, c);
      CleanSingle(s, c);
      FindAfterClean(s, sep, t);
      assert whole[..|s|] == s;
      assert whole[|s| + 1..] == t;
    case Some(i) =>
      SeparatorInFront(s, c, t, i);
      calc {
        Split(whole, sep);
        [s[..i]] + Split(s[i + 1..] + [c] + t, sep);
        { SplitSingleAppend(s[i + 1..], c, t); }
        [s[..i]] + (Split(s[i + 1..], sep) + Split(t, sep));
        Split(s, sep) + Split(t, sep);
      }
  }

  /** A `c` found in `s` is still the first one once `[c] + t` follows, and
      the text around it is unchanged. */
  lemma SeparatorInFront(s: string, c: char, t: string, i: nat)
    requires Find(s, [c]) == Some(i)
    ensures Find(s + [c] + t, [c]) == Some(i)
    ensures (s + [c] + t)[..i] == s[..i]
    ensures (s + [c] + t)[i + 1..] == s[i + 1..] + [c] + t
  {
    FindExtend(s, [c], [c] + t);
    assert s + ([c] + t) == s + [c] + t;
    assert s == s[..i + 1] + s[i + 1..];
    assert s + [c] + t == s[..i + 1] + (s[i + 1..] + [c] + t);
  }

  /** The last piece of a split on `c` is the text after the last `c`. */
  lemma LastPieceAfterSep(p: string, c: char, tail: string)
    requires c !in tail
    ensures var parts := Split(p + [c] + tail, [c]);
            parts[|parts| - 1] == tail
  {
    SplitSingleAppend(p, c, tail);
    CleanSingle(tail, c);
    CleanHasNoSep(tail, [c]);
  }

  // ---------------------------------------------------------------------
  // Digits and numbers
  // ---------------------------------------------------------------------

  predicate IsDigit(c: char)
  {
    '0' <= c <= '9'
  }

  predicate AllDigits(s: string)
  {
    forall i :: 0 <= i < |s| ==> IsDigit(s[i])
  }

  /** Python's `str.isdigit()` restricted to ASCII: non-empty, every character a digit. */
  predicate IsDigits(s: string)
  {
    |s| > 0 && AllDigits(s)
  }

  /** The decimal value of a string of digits (the empty string counts 0). */
  function DigitsValue(s: string): nat
    requires AllDigits(s)
    decreases |s|
  {
    if |s| == 0 then 0
    else 10 * DigitsValue(s[..|s| - 1]) + (s[|s| - 1] as int - '0' as int)
  }

  function DigitChar(d: nat): (c: char)
    requires d < 10
    ensures IsDigit(c) && c as int - '0' as int == d
  {
    ('0' as int + d) as char
  }

  /** Decimal rendering of a natural number; the inverse of `DigitsValue`. */
  function ShowNat(n: nat): (s: string)
    ensures IsDigits(s)
    ensures DigitsValue(s) == n
    decreases n
  {
    if n < 10 then [DigitChar(n)]
    else
      var prefix := ShowNat(n / 10);
      var s := prefix + [DigitChar(n % 10)];
      assert s[..|s| - 1] == prefix;
      s
  }

  /** Decimal rendering of an integer, with a leading '-' when negative. */
  function ShowInt(i: int): string
  {
    if i < 0 then "-" + ShowNat(-i) else ShowNat(i)
  }

  /** Python's `int(s)` on stripped ASCII text: an optional sign followed by
      at least one digit. */
  function ParseInt(s: string): (r: Option<int>)
    ensures IsDigits(s) ==> r == Some(DigitsValue(s))
    ensures |s| > 1 && s[0] == '-' && IsDigits(s[1..]) ==> r.Some? && r.value == 0 - DigitsValue(s[1..]) as int
    ensures |s| > 1 && s[0] == '+' && IsDigits(s[1..]) ==> r == Some(DigitsValue(s[1..]))
    ensures r.Some? ==> IsDigits(s) || (|s| > 1 && (s[0] == '-' || s[0] == '+') && IsDigits(s[1..]))
    ensures r.Some? && r.value < 0 ==> s[0] == '-'
  {
    if IsDigits(s) then Some(DigitsValue(s))
    else if |s| > 1 && s[0] == '-' && IsDigits(s[1..]) then Some(0 - DigitsValue(s[1..]))
    else if |s| > 1 && s[0] == '+' && IsDigits(s[1..]) then Some(DigitsValue(s[1..]))
    else None
  }

  /** Every integer printed in decimal parses back to itself. */
  lemma ParseShowInt(i: int)
    ensures ParseInt(ShowInt(i)) == Some(i)
  {
    if i < 0 {
      var s := "-" + ShowNat(-i);
      assert !IsDigit(s[0]);
      assert s[1..] == ShowNat(-i);
    }
  }

  /** Integers printed in decimal contain no ':' and so are clean fields for "::". */
  lemma ShowIntHasNoColon(i: int)
    ensures ':' !in ShowInt(i)
  {
    var d := ShowNat(if i < 0 then -i else i);
    assert ':' !in d by {
      forall k | 0 <= k < |d| ensures d[k] != ':' {
        assert IsDigit(d[k]);
      }
    }
    if i < 0 {
      assert ShowInt(i) == "-" + d;
    }
  }

  function Pow10(n: nat): (p: nat)
    ensures p >= 1
  {
    if n == 0 then 1 else 10 * Pow10(n - 1)
  }

  /** Every character is a digit or the decimal point. */
  predicate DecimalChars(s: string)
  {
    forall k :: 0 <= k < |s| ==> IsDigit(s[k]) || s[k] == '.'
  }

  lemma DecimalCharsAround(s: string, k: nat)
    requires k < |s| && s[k] == '.'
    requires AllDigits(s[..k]) && AllDigits(s[k + 1..])
    ensures DecimalChars(s)
  {
    forall j | 0 <= j < |s|
      ensures IsDigit(s[j]) || s[j] == '.'
    {
      if j < k {
        assert s[j] == s[..k][j];
      } else if j > k {
        assert s[j] == s[k + 1..][j - k - 1];
      }
    }
  }

  /** The value of `whole.frac`, with `frac` a string of digits. */
  function DecimalValue(whole: nat, frac: string): (v: real)
    requires AllDigits(frac)
    ensures v >= whole as real
  {
    whole as real + DigitsValue(frac) as real / Pow10(|frac|) as real
  }

  /** An unsigned decimal: digits, optionally followed by '.' and more digits,
      with at least one digit overall ("5", "3.5", "5.", ".5"). */
  function ParseUnsignedDecimal(s: string): (r: Option<real>)
    ensures r.Some? ==> r.value >= 0.0
    ensures r.Some? ==> DecimalChars(s)
  {
    match Find(s, ".")
    case None =>
      if IsDigits(s) then Some(DigitsValue(s) as real) else None
    case Some(k) =>
      var whole := s[..k];
      var frac := s[k + 1..];
      if AllDigits(whole) && AllDigits(frac) && |whole| + |frac| > 0 then
        assert s[k..k + 1] == ".";
        DecimalCharsAround(s, k);
        Some(DecimalValue(DigitsValue(whole), frac))
      else None
  }

  /** Python's `float(s)` for plain decimal notation with an optional sign. */
  function ParseScore(s: string): (r: Option<real>)
    ensures r.Some? ==> ':' !in s
  {
    if |s| > 0 && s[0] == '-' then
      match ParseUnsignedDecimal(s[1..])
      case Some(v) => Some(-v)
      case None => None
    else if |s| > 0 && s[0] == '+' then ParseUnsignedDecimal(s[1..])
    else ParseUnsignedDecimal(s)
  }

  lemma NoDotInDigits(s: string)
    requires AllDigits(s)
    ensures Find(s, ".").None?
  {
    forall i: nat
      ensures !OccursAt(s, ".", i)
    {
      if i < |s| {
        assert IsDigit(s[i]);
        assert s[i..i + 1][0] == s[i];
      }
    }
  }

  /** A whole number printed in decimal is read back as that score. */
  lemma ParseScoreWhole(n: nat)
    ensures ParseScore(ShowNat(n)) == Some(n as real)
  {
    var s := ShowNat(n);
    NoDotInDigits(s);
    assert !(s[0] == '-' || s[0] == '+') by { assert IsDigit(s[0]); }
  }

  lemma DigitsHaveNoDot(w: string)
    requires AllDigits(w)
    ensures '.' !in w
  {
    forall j | 0 <= j < |w| ensures w[j] != '.' { assert IsDigit(w[j]); }
  }

  /** The first '.' of the text is the one found. */
  lemma FindDotAt(s: string, k: nat)
    requires k < |s| && s[k] == '.' && '.' !in s[..k]
    ensures Find(s, ".") == Some(k)
  {
    var w := s[..k];
    CleanSingle(w, '.');
    FindAfterClean(w, ".", s[k + 1..]);
    assert s == w + "." + s[k + 1..];
  }

  /** Text without a '.' is a score exactly when it is a non-empty run of
      digits, and then it is that whole number. */
  lemma ParseUnsignedWhole(s: string)
    requires '.' !in s
    ensures ParseUnsignedDecimal(s) == if IsDigits(s) then Some(DigitsValue(s) as real) else None
  {
    CleanSingle(s, '.');
    CleanHasNoSep(s, ".");
  }

  /** Text whose first '.' sits at `k` is a score exactly when digits (or
      nothing) stand on each side and the point is not alone; the score is
      the whole part plus the fraction. */
  lemma ParseUnsignedPoint(s: string, k: nat)
    requires k < |s| && s[k] == '.' && '.' !in s[..k]
    ensures ParseUnsignedDecimal(s) ==
              if AllDigits(s[..k]) && AllDigits(s[k + 1..]) && |s| > 1
              then Some(DecimalValue(DigitsValue(s[..k]), s[k + 1..]))
              else None
  {
    FindDotAt(s, k);
  }

  /** A leading '-' negates the unsigned reading of the rest. */
  lemma ParseScoreNegative(u: string)
    ensures ParseScore("-" + u).Some? <==> ParseUnsignedDecimal(u).Some?
    ensures ParseScore("-" + u).Some? ==> ParseScore("-" + u).value == -ParseUnsignedDecimal(u).value
  {
    assert ("-" + u)[1..] == u;
  }

  /** A leading '+' is dropped. */
  lemma ParseScorePositive(u: string)
    ensures ParseScore("+" + u) == ParseUnsignedDecimal(u)
  {
    assert ("+" + u)[1..] == u;
  }

  /** A score that does not start with a sign is read unsigned. */
  lemma UnsignedScore(s: string)
    requires |s| == 0 || (s[0] != '-' && s[0] != '+')
    ensures ParseScore(s) == ParseUnsignedDecimal(s)
  {
  }

  /** A fraction without a whole part: ".5" is one half. */
  lemma LeadingPointScore()
    ensures ParseScore(".5") == Some(0.5)
  {
    var s := ".5";
    assert s[..0] == [] && s[1..] == "5";
    ParseUnsignedPoint(s, 0);
    assert DigitsValue("5") == 5;
    UnsignedScore(s);
  }

  /** A whole number printed in decimal, a '.', and a fractional part of
      digits are read back as that number plus the fraction. */
  lemma ParseScoreFraction(s: string, k: nat, n: nat)
    requires k < |s| && s[..k] == ShowNat(n) && s[k] == '.' && AllDigits(s[k + 1..])
    ensures ParseScore(s) == Some(DecimalValue(n, s[k + 1..]))
  {
    assert AllDigits(s[..k]) && DigitsValue(s[..k]) == n;
    DigitsHaveNoDot(s[..k]);
    ParseUnsignedPoint(s, k);
    assert s[0] == s[..k][0] && IsDigit(s[0]);
    UnsignedScore(s);
  }
}
