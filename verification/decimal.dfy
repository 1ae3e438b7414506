/** Decimal digit strings: reading them as numbers (what `Integer.parseInt`
    does to a run of ASCII digits) and printing numbers as them (what Java's
    string concatenation does to an `int`). */
module Decimal {

  /** An ASCII digit: what `\d` matches in a Java regex without the
      UNICODE_CHARACTER_CLASS flag. */
  predicate IsDigit(c: char) {
    '0' <= c <= '9'
  }

  predicate AllDigits(s: seq<char>) {
    forall k :: 0 <= k < |s| ==> IsDigit(s[k])
  }

  /** Every position of `s` from `a` up to `b` holds a digit. */
  predicate DigitsBetween(s: seq<char>, a: int, b: int) {
    0 <= a <= b <= |s| && forall k :: a <= k < b ==> IsDigit(s[k])
  }

  function DigitValue(c: char): (d: nat)
    requires IsDigit(c)
    ensures d < 10
  {
    (c as int) - ('0' as int)
  }

  function DigitChar(d: nat): (c: char)
    requires d < 10
    ensures IsDigit(c) && DigitValue(c) == d
  {
    (('0' as int) + d) as char
  }

  /** The number a digit string denotes; leading zeros are allowed and the
      empty string denotes 0. */
  function Value(s: seq<char>): nat
    requires AllDigits(s)
    decreases |s|
  {
    if |s| == 0 then 0 else Value(s[..|s| - 1]) * 10 + DigitValue(s[|s| - 1])
  }

  /** Appending one digit shifts the value by one decimal place. */
  lemma ValueSnoc(p: seq<char>, c: char)
    requires AllDigits(p) && IsDigit(c)
    ensures AllDigits(p + [c])
    ensures Value(p + [c]) == Value(p) * 10 + DigitValue(c)
  {
    assert (p + [c])[..|p|] == p;
  }

  /** The number the digits of `s` from `a` up to `b` denote, read in place. */
  function RunValue(s: seq<char>, a: int, b: int): nat
    requires DigitsBetween(s, a, b)
    decreases b - a
  {
    if a == b then 0 else RunValue(s, a, b - 1) * 10 + DigitValue(s[b - 1])
  }

  /** Reading digits in place agrees with reading the same digits as a
      string of their own. */
  lemma {:induction false} RunValueOf(s: seq<char>, k: nat, d: seq<char>)
    requires AllDigits(d) && k + |d| <= |s|
    requires forall j :: k <= j < k + |d| ==> s[j] == d[j - k]
    ensures DigitsBetween(s, k, k + |d|)
    ensures RunValue(s, k, k + |d|) == Value(d)
    decreases |d|
  {
    if |d| > 0 {
      var e := d[..|d| - 1];
      RunValueOf(s, k, e);
    }
  }

  /** The canonical decimal form of a natural number: digits only, no leading
      zero except for 0 itself, and reading it back gives the number. */
  function NatToString(n: nat): (r: seq<char>)
    ensures |r| >= 1 && AllDigits(r)
    ensures r[0] != '0' || r == "0"
    ensures Value(r) == n
    decreases n
  {
    if n < 10 then [DigitChar(n)]
    else
      var p := NatToString(n / 10);
      ValueSnoc(p, DigitChar(n % 10));
      p + [DigitChar(n % 10)]
  }

  /** Java's decimal rendering of an `int`: a minus sign before the digits of
      the magnitude when negative. */
  function IntToString(i: int): (r: seq<char>)
    ensures |r| >= 1
    ensures r[0] == '-' <==> i < 0
    ensures i >= 0 ==> AllDigits(r) && Value(r) == i
    ensures i < 0 ==> AllDigits(r[1..]) && Value(r[1..]) == -i
  {
    if i < 0 then "-" + NatToString(-i) else NatToString(i)
  }
}
