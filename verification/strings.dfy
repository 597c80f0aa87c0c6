/** The two pieces of Python's string library the task model relies on:
    str.strip() with no argument, and str() of an integer. */
module Strings {

  /** The characters for which Python's str.isspace() holds, which are the
      characters str.strip() removes when called without an argument. */
  predicate IsSpace(c: char) {
    || c == ' '
    || ('\t' <= c <= '\r')              // tab, line feed, vertical tab, form feed, carriage return
    || ('\U{1C}' <= c <= '\U{1F}')      // file, group, record and unit separators
    || c == '\U{85}' || c == '\U{A0}' || c == '\U{1680}'
    || ('\U{2000}' <= c <= '\U{200A}')
    || c == '\U{2028}' || c == '\U{2029}' || c == '\U{202F}' || c == '\U{205F}' || c == '\U{3000}'
  }

  /** True of the empty string and of strings made of whitespace only. */
  predicate AllSpace(s: string) {
    forall i :: 0 <= i < |s| ==> IsSpace(s[i])
  }

  /** No whitespace at either end: what str.strip() leaves. */
  predicate Trimmed(s: string) {
    s == [] || (!IsSpace(s[0]) && !IsSpace(s[|s| - 1]))
  }

  /** Every character of `s` from index `lo` up to, not including, `hi` is
      whitespace. */
  predicate SpaceBetween(s: string, lo: int, hi: int)
    requires 0 <= lo && hi <= |s|
  {
    forall k :: lo <= k < hi ==> IsSpace(s[k])
  }

  /** Where the whitespace that starts at index `i` ends: the index of the
      first non-whitespace character at or after `i`, or |s| if none. */
  function SkipSpace(s: string, i: nat): (n: nat)
    requires i <= |s|
    ensures i <= n <= |s| && SpaceBetween(s, i, n)
    ensures n < |s| ==> !IsSpace(s[n])
    decreases |s| - i
  {
    if i < |s| && IsSpace(s[i]) then SkipSpace(s, i + 1) else i
  }

  /** Where the whitespace that ends at index `j` starts, looking no
      further back than `lo`: one past the last non-whitespace character
      before `j`, or `lo` if none. */
  function SkipSpaceBack(s: string, lo: nat, j: nat): (n: nat)
    requires lo <= j <= |s|
    ensures lo <= n <= j && SpaceBetween(s, n, j)
    ensures lo < n ==> !IsSpace(s[n - 1])
  {
    if lo < j && IsSpace(s[j - 1]) then SkipSpaceBack(s, lo, j - 1) else j
  }

  /** Python's `s.strip()`: `s` without its leading and trailing
      whitespace. It is empty exactly when `s` is all whitespace, and
      otherwise starts and ends with a non-whitespace character;
      TrimKeepsMiddle says which slice of `s` it is. */
  function Trim(s: string): (r: string)
    ensures |r| <= |s|
    ensures r == [] <==> AllSpace(s)
    ensures Trimmed(r)
  {
    var i := SkipSpace(s, 0);
    var e := SkipSpaceBack(s, i, |s|);
    TrimEnds(s, i, e);
    s[i..e]
  }

  /** The two ends Trim finds bound a slice that is empty exactly when `s` is
      all whitespace, and that otherwise has no whitespace at either end. */
  lemma TrimEnds(s: string, i: nat, e: nat)
    requires i <= e <= |s|
    requires SpaceBetween(s, 0, i) && (i < |s| ==> !IsSpace(s[i]))
    requires SpaceBetween(s, e, |s|) && (i < e ==> !IsSpace(s[e - 1]))
    ensures s[i..e] == [] <==> AllSpace(s)
    ensures Trimmed(s[i..e])
  {
    if i < |s| {
      assert !IsSpace(s[i]);
    }
    if i < e {
      assert s[i..e][0] == s[i] && s[i..e][e - i - 1] == s[e - 1];
    }
  }

  /** What Trim returns is the slice of its input that starts at the first
      non-whitespace character, and everything before and after that slice
      is whitespace. */
  lemma TrimKeepsMiddle(s: string)
    ensures var i := SkipSpace(s, 0); var r := Trim(s);
      && i + |r| <= |s| && r == s[i..i + |r|]
      && SpaceBetween(s, 0, i) && SpaceBetween(s, i + |r|, |s|)
  {
    var i := SkipSpace(s, 0);
    var e := SkipSpaceBack(s, i, |s|);
    assert Trim(s) == s[i..e];
    assert i + |s[i..e]| == e;
  }

  /** A string with no whitespace at either end is its own trimmed form. */
  lemma TrimFixedPoint(s: string)
    ensures Trim(s) == s <==> Trimmed(s)
  {
    if s != [] && Trimmed(s) {
      assert SkipSpace(s, 0) == 0;
      assert SkipSpaceBack(s, 0, |s|) == |s|;
    }
  }

  /** Trimming twice is the same as trimming once. */
  lemma TrimIdempotent(s: string)
    ensures Trim(Trim(s)) == Trim(s)
  {
    TrimFixedPoint(Trim(s));
  }

  predicate IsDigit(c: char) {
    '0' <= c <= '9'
  }

  function DigitChar(d: int): (c: char)
    requires 0 <= d < 10
    ensures IsDigit(c) && c as int - '0' as int == d
  {
    ('0' as int + d) as char
  }

  /** The decimal digits of `n` without leading zeros, as Python's str(n). */
  function NatToString(n: nat): (r: string)
    ensures r != [] && forall i :: 0 <= i < |r| ==> IsDigit(r[i])
    ensures r[0] == '0' ==> n == 0
  {
    if n < 10 then [DigitChar(n)] else NatToString(n / 10) + [DigitChar(n % 10)]
  }

  /** The value of a string of decimal digits. */
  function DigitsValue(s: string): nat
    requires forall i :: 0 <= i < |s| ==> IsDigit(s[i])
  {
    if s == [] then 0
    else
      assert IsDigit(s[|s| - 1]);
      DigitsValue(s[..|s| - 1]) * 10 + (s[|s| - 1] as int - '0' as int)
  }

  lemma {:induction false} NatToStringRoundTrip(n: nat)
    ensures DigitsValue(NatToString(n)) == n
  {
    if n >= 10 {
      var p := NatToString(n / 10);
      var r := NatToString(n);
      assert r[..|r| - 1] == p;
      NatToStringRoundTrip(n / 10);
    }
  }

  /** Python's str(n) for any integer: a minus sign before the digits of a
      negative number. */
  function IntToString(n: int): (r: string)
    ensures r != [] && (r[0] == '-' <==> n < 0)
  {
    if n < 0 then "-" + NatToString(-n) else NatToString(n)
  }

  /** Reads back what IntToString writes; any other string reads as 0. */
  function ParseInt(s: string): int {
    if s != [] && s[0] == '-' && forall i :: 1 <= i < |s| ==> IsDigit(s[i]) then
      -(DigitsValue(s[1..]) as int)
    else if forall i :: 0 <= i < |s| ==> IsDigit(s[i]) then
      DigitsValue(s)
    else
      0
  }

  /** The decimal rendering of an integer determines the integer. */
  lemma IntToStringRoundTrip(n: int)
    ensures ParseInt(IntToString(n)) == n
  {
    if n < 0 {
      var r := IntToString(n);
      assert r[1..] == NatToString(-n);
      NatToStringRoundTrip(-n);
    } else {
      NatToStringRoundTrip(n);
    }
  }
}
