/** String helpers the progress state machine relies on: Python's substring
    test (`sub in s`), `str.strip()` with no argument, and `str(n)` for an
    integer, each with an independent characterisation or an inverse. */
module Text {

  datatype Option<T> = None | Some(value: T)

  // ---------------------------------------------------------------------
  // Substring test
  // ---------------------------------------------------------------------

  /** `sub` occurs in `s` starting at index `i`. */
  predicate OccursAt(s: string, sub: string, i: int)
  {
    0 <= i && i + |sub| <= |s| && s[i..i + |sub|] == sub
  }

  /** Python's `sub in s`: some position of `s` starts an occurrence of `sub`. */
  predicate Contains(s: string, sub: string)
  {
    exists i | 0 <= i <= |s| - |sub| :: OccursAt(s, sub, i)
  }

  /** The naive left-to-right search behind `sub in s`: returns the first
      position of an occurrence, or -1 when there is none. */
  method Find(s: string, sub: string) returns (pos: int)
    ensures pos == -1 || 0 <= pos <= |s| - |sub|
    ensures pos == -1 <==> !Contains(s, sub)
    ensures pos >= 0 ==> OccursAt(s, sub, pos)
    ensures forall j :: 0 <= j < pos ==> !OccursAt(s, sub, j)
  {
    var i := 0;
    while i <= |s| - |sub|
      invariant 0 <= i
      invariant i <= |s| - |sub| + 1 || |s| < |sub|
      invariant forall j :: 0 <= j < i ==> !OccursAt(s, sub, j)
    {
      if s[i..i + |sub|] == sub {
        assert OccursAt(s, sub, i);
        return i;
      }
      i := i + 1;
    }
    return -1;
  }

  // ---------------------------------------------------------------------
  // str.strip()
  // ---------------------------------------------------------------------

  /** The characters Python's `str.isspace()` accepts, which are the ones
      `str.strip()` with no argument removes: U+0009..U+000D, U+001C..U+0020,
      U+0085, U+00A0, U+1680, U+2000..U+200A, U+2028, U+2029, U+202F,
      U+205F and U+3000. */
  const Whitespace: set<char> := {
      '\U{9}', '\U{A}', '\U{B}', '\U{C}', '\U{D}', '\U{1C}',
      '\U{1D}', '\U{1E}', '\U{1F}', '\U{20}', '\U{85}', '\U{A0}',
      '\U{1680}', '\U{2000}', '\U{2001}', '\U{2002}', '\U{2003}', '\U{2004}',
      '\U{2005}', '\U{2006}', '\U{2007}', '\U{2008}', '\U{2009}', '\U{200A}',
      '\U{2028}', '\U{2029}', '\U{202F}', '\U{205F}', '\U{3000}'
    }

  predicate IsSpace(c: char)
  {
    c in Whitespace
  }

  /** Every character of `s` is whitespace. */
  predicate AllSpace(s: string)
  {
    forall k :: 0 <= k < |s| ==> IsSpace(s[k])
  }

  /** `r` is `s` with all leading and trailing whitespace removed: a
      contiguous piece of `s`, flanked only by whitespace, that neither starts
      nor ends with whitespace. */
  ghost predicate IsStripOf(s: string, r: string)
  {
    exists i, j :: StrippedBetween(s, r, i, j)
  }

  /** `r` is `s[i..j]`, only whitespace lies outside it, and `r` neither
      starts nor ends with whitespace. */
  predicate StrippedBetween(s: string, r: string, i: int, j: int)
  {
    && 0 <= i <= j <= |s| && r == s[i..j] && AllSpace(s[..i]) && AllSpace(s[j..])
    && (r == [] || (!IsSpace(r[0]) && !IsSpace(r[|r| - 1])))
  }

  /** Number of whitespace characters `str.lstrip()` removes. */
  function LeadingSpaces(s: string): (n: nat)
    ensures n <= |s|
    decreases |s|
  {
    if |s| > 0 && IsSpace(s[0]) then 1 + LeadingSpaces(s[1..]) else 0
  }

  /** Number of whitespace characters `str.rstrip()` removes. */
  function TrailingSpaces(s: string): (n: nat)
    ensures n <= |s|
    decreases |s|
  {
    if |s| > 0 && IsSpace(s[|s| - 1]) then 1 + TrailingSpaces(s[..|s| - 1]) else 0
  }

  /** `str.strip()`: drops the whitespace prefix, then the whitespace suffix. */
  function Strip(s: string): (r: string)
    ensures |r| <= |s|
    ensures r == [] || (!IsSpace(r[0]) && !IsSpace(r[|r| - 1]))
  {
    var left := s[LeadingSpaces(s)..];
    LeadingSpacesSpec(s);
    TrailingSpacesSpec(left);
    var r := left[..|left| - TrailingSpaces(left)];
    assert r != [] ==> r[0] == left[0];
    r
  }

  lemma {:induction false} LeadingSpacesSpec(s: string)
    ensures AllSpace(s[..LeadingSpaces(s)])
    ensures LeadingSpaces(s) == |s| || !IsSpace(s[LeadingSpaces(s)])
    decreases |s|
  {
    if |s| > 0 && IsSpace(s[0]) {
      LeadingSpacesSpec(s[1..]);
      var n := LeadingSpaces(s[1..]);
      assert s[..n + 1] == [s[0]] + s[1..][..n];
    }
  }

  lemma {:induction false} TrailingSpacesSpec(s: string)
    ensures AllSpace(s[|s| - TrailingSpaces(s)..])
    ensures TrailingSpaces(s) == |s| || !IsSpace(s[|s| - TrailingSpaces(s) - 1])
    decreases |s|
  {
    if |s| > 0 && IsSpace(s[|s| - 1]) {
      var init := s[..|s| - 1];
      TrailingSpacesSpec(init);
      var n := TrailingSpaces(init);
      assert s[|s| - (n + 1)..] == init[|init| - n..] + [s[|s| - 1]];
    }
  }

  /** `Strip` removes exactly the surrounding whitespace. */
  lemma StripIsStripOf(s: string)
    ensures IsStripOf(s, Strip(s))
  {
    var i := LeadingSpaces(s);
    var left := s[i..];
    var r := Strip(s);
    var j := i + |r|;
    LeadingSpacesSpec(s);
    TrailingSpacesSpec(left);
    assert r == s[i..j];
    assert s[j..] == left[|r|..];
    assert r != [] ==> r[0] == left[0];
    assert StrippedBetween(s, r, i, j);
  }

  /** Stripping is determined by its characterisation: any `r` that is a
      strip of `s` is `Strip(s)`. */
  lemma StripUnique(s: string, r: string)
    requires IsStripOf(s, r)
    ensures r == Strip(s)
  {
    var i, j :| StrippedBetween(s, r, i, j);
    var t := Strip(s);
    StripIsStripOf(s);
    var i', j' :| StrippedBetween(s, t, i', j');
    StrippedBetweenUnique(s, r, i, j, t, i', j');
  }

  lemma StrippedBetweenUnique(s: string, r: string, i: int, j: int, t: string, i': int, j': int)
    requires StrippedBetween(s, r, i, j)
    requires StrippedBetween(s, t, i', j')
    ensures r == t
  {
    if r == [] || t == [] {
      StripEmptyMeansAllSpace(s, r, i, j);
      StripEmptyMeansAllSpace(s, t, i', j');
    } else {
      assert s[i] == r[0] && s[j - 1] == r[|r| - 1];
      assert s[i'] == t[0] && s[j' - 1] == t[|t| - 1];
      FirstNonSpaceUnique(s, i, i');
      LastNonSpaceUnique(s, j, j');
    }
  }

  /** Two positions each preceded only by whitespace and each holding a
      non-whitespace character coincide. */
  lemma FirstNonSpaceUnique(s: string, i: int, i': int)
    requires 0 <= i < |s| && 0 <= i' < |s|
    requires AllSpace(s[..i]) && AllSpace(s[..i'])
    requires !IsSpace(s[i]) && !IsSpace(s[i'])
    ensures i == i'
  {
    assert forall k :: 0 <= k < i' ==> s[..i'][k] == s[k];
    assert forall k :: 0 <= k < i ==> s[..i][k] == s[k];
  }

  /** Mirror image of `FirstNonSpaceUnique` for the end of the string. */
  lemma LastNonSpaceUnique(s: string, j: int, j': int)
    requires 0 < j <= |s| && 0 < j' <= |s|
    requires AllSpace(s[j..]) && AllSpace(s[j'..])
    requires !IsSpace(s[j - 1]) && !IsSpace(s[j' - 1])
    ensures j == j'
  {
    assert forall k :: j <= k < |s| ==> s[j..][k - j] == s[k];
    assert forall k :: j' <= k < |s| ==> s[j'..][k - j'] == s[k];
  }

  /** A strip is empty exactly when the whole string is whitespace. */
  lemma StripEmptyMeansAllSpace(s: string, r: string, i: int, j: int)
    requires StrippedBetween(s, r, i, j)
    ensures r == [] <==> AllSpace(s)
  {
    if r == [] {
      forall k | 0 <= k < |s| ensures IsSpace(s[k]) {
        if k < i { assert s[..i][k] == s[k]; } else { assert s[j..][k - j] == s[k]; }
      }
    } else {
      assert s[i] == r[0];
    }
  }

  /** Stripping twice is stripping once. */
  lemma StripIdempotent(s: string)
    ensures Strip(Strip(s)) == Strip(s)
  {
    var r := Strip(s);
    assert r[0..|r|] == r;
    StripIsStripOf(s);
    assert StrippedBetween(r, r, 0, |r|);
    StripUnique(r, r);
  }

  // ---------------------------------------------------------------------
  // str(n) for integers, and its inverse
  // ---------------------------------------------------------------------

  predicate IsDigit(c: char)
  {
    '0' <= c <= '9'
  }

  function DigitChar(d: nat): (c: char)
    requires d < 10
    ensures IsDigit(c) && (c as int) - ('0' as int) == d
  {
    (('0' as int) + d) as char
  }

  /** Decimal rendering of a natural number, as Python's `str` writes it:
      no sign, no leading zero. */
  function NatToString(n: nat): (r: string)
    ensures |r| >= 1
    ensures forall k :: 0 <= k < |r| ==> IsDigit(r[k])
    ensures |r| > 1 ==> r[0] != '0'
    decreases n
  {
    if n < 10 then [DigitChar(n)] else NatToString(n / 10) + [DigitChar(n % 10)]
  }

  /** Python's `str(i)` for an `int`: a leading `-` for negatives. */
  function IntToString(i: int): (r: string)
    ensures |r| >= 1
    ensures i < 0 <==> r[0] == '-'
  {
    if i < 0 then "-" + NatToString(-i) else NatToString(i)
  }

  /** Value of a string of decimal digits. */
  function DigitsValue(s: string): (n: nat)
    requires forall k :: 0 <= k < |s| ==> IsDigit(s[k])
  {
    if |s| == 0 then 0
    else DigitsValue(s[..|s| - 1]) * 10 + DigitValue(s[|s| - 1])
  }

  function DigitValue(c: char): (d: nat)
    requires IsDigit(c)
    ensures d < 10 && DigitChar(d) == c
  {
    (c as int) - ('0' as int)
  }

  /** Python's `int(s)` restricted to the canonical form `str` produces:
      an optional `-`, then one or more digits with no leading zero. */
  function ParseInt(s: string): (r: Option<int>)
  {
    if |s| >= 1 && s[0] == '-' then
      var ds := s[1..];
      if CanonicalDigits(ds) && ds != "0" then Some(-(DigitsValue(ds) as int)) else None
    else if CanonicalDigits(s) then Some(DigitsValue(s) as int)
    else None
  }

  predicate CanonicalDigits(s: string)
  {
    && |s| >= 1
    && (forall k :: 0 <= k < |s| ==> IsDigit(s[k]))
    && (|s| > 1 ==> s[0] != '0')
  }

  lemma {:induction false} NatToStringValue(n: nat)
    ensures DigitsValue(NatToString(n)) == n
    decreases n
  {
    if n >= 10 {
      var r := NatToString(n);
      assert r[..|r| - 1] == NatToString(n / 10);
      NatToStringValue(n / 10);
    }
  }

  /** `ParseInt` inverts `IntToString`, so the rendered exit code determines
      the exit code. */
  lemma IntToStringRoundTrip(i: int)
    ensures ParseInt(IntToString(i)) == Some(i)
  {
    if i < 0 {
      var r := IntToString(i);
      assert r[1..] == NatToString(-i);
      NatToStringValue(-i);
    } else {
      NatToStringValue(i);
    }
  }

  lemma IntToStringInjective(a: int, b: int)
    ensures IntToString(a) == IntToString(b) <==> a == b
  {
    IntToStringRoundTrip(a);
    IntToStringRoundTrip(b);
  }
}
