/**
 * Decimal text of non-negative integers: what an f-string `{}` writes for an
 * index, and what `int(...)` reads back from a run of digits. Every object name
 * the two scripts create is a prefix followed by two such numbers.
 */
module Decimal {

  predicate IsDigit(c: char) {
    '0' <= c <= '9'
  }

  predicate AllDigits(s: string) {
    forall k :: 0 <= k < |s| ==> IsDigit(s[k])
  }

  function DigitValue(c: char): (d: nat)
    requires IsDigit(c)
    ensures d < 10
  {
    c as int - '0' as int
  }

  function DigitChar(d: nat): (c: char)
    requires d < 10
    ensures IsDigit(c) && DigitValue(c) == d
  {
    ('0' as int + d) as char
  }

  /** `int(s)` for a string of decimal digits (leading zeros allowed). */
  function Value(s: string): nat
    requires AllDigits(s)
  {
    if s == [] then 0 else Value(s[..|s| - 1]) * 10 + DigitValue(s[|s| - 1])
  }

  /** `str(n)`: the shortest decimal text of n. */
  function Show(n: nat): (s: string)
    ensures |s| > 0 && AllDigits(s)
  {
    if n < 10 then [DigitChar(n)] else Show(n / 10) + [DigitChar(n % 10)]
  }

  /** The first (most significant) digit of n. */
  function LeadingDigit(n: nat): (d: nat)
    ensures d < 10
    ensures n < 10 ==> d == n
  {
    if n < 10 then n else LeadingDigit(n / 10)
  }

  /** Reading back what Show writes gives the number again. */
  lemma {:induction false} ValueOfShow(n: nat)
    ensures Value(Show(n)) == n
  {
    if n >= 10 {
      var s := Show(n);
      assert s[..|s| - 1] == Show(n / 10);
      ValueOfShow(n / 10);
    }
  }

  /** The first character of Show(n) is the digit LeadingDigit(n). */
  lemma {:induction false} ShowStartsWithLeadingDigit(n: nat)
    ensures Show(n)[0] == DigitChar(LeadingDigit(n))
  {
    if n >= 10 {
      ShowStartsWithLeadingDigit(n / 10);
    }
  }

  lemma ShowInjective(a: nat, b: nat)
    requires Show(a) == Show(b)
    ensures a == b
  {
    ValueOfShow(a);
    ValueOfShow(b);
  }

  /** The end of the run of digits in s that starts at i: the first index at or after i holding no digit. */
  function RunEnd(s: string, i: nat): (e: nat)
    requires i <= |s|
    ensures i <= e <= |s|
    ensures AllDigits(s[i..e])
    ensures e < |s| ==> !IsDigit(s[e])
    decreases |s| - i
  {
    if i < |s| && IsDigit(s[i]) then RunEnd(s, i + 1) else i
  }

  /** A run of d digits followed by a non-digit ends after those d characters. */
  lemma {:induction false} RunEndAfterDigits(s: string, i: nat, d: nat)
    requires i + d < |s|
    requires forall k :: i <= k < i + d ==> IsDigit(s[k])
    requires !IsDigit(s[i + d])
    ensures RunEnd(s, i) == i + d
    decreases d
  {
    if d > 0 {
      RunEndAfterDigits(s, i + 1, d - 1);
    }
  }

  /** `"<prefix>{}_{}".format(a, b)`. */
  function PairName(prefix: string, a: nat, b: nat): string {
    prefix + Show(a) + "_" + Show(b)
  }

  /**
   * Distinct index pairs give distinct names under one prefix: the first `_`
   * after the prefix ends the first number, since a digit is never `_`.
   */
  lemma PairNameInjective(prefix: string, a1: nat, b1: nat, a2: nat, b2: nat)
    requires PairName(prefix, a1, b1) == PairName(prefix, a2, b2)
    ensures a1 == a2 && b1 == b2
  {
    var n1, n2 := PairName(prefix, a1, b1), PairName(prefix, a2, b2);
    var s1, s2 := Show(a1), Show(a2);
    var p := |prefix|;
    RunEndAfterDigits(n1, p, |s1|);
    RunEndAfterDigits(n2, p, |s2|);
    assert s1 == n1[p..p + |s1|] == n2[p..p + |s2|] == s2;
    ShowInjective(a1, a2);
    assert Show(b1) == n1[p + |s1| + 1..] == n2[p + |s2| + 1..] == Show(b2);
    ShowInjective(b1, b2);
  }

  /** Names under two prefixes that differ at some position inside both never coincide. */
  lemma PairNamesApart(p1: string, p2: string, k: nat, a1: nat, b1: nat, a2: nat, b2: nat)
    requires k < |p1| && k < |p2| && p1[k] != p2[k]
    ensures PairName(p1, a1, b1) != PairName(p2, a2, b2)
  {
    assert PairName(p1, a1, b1)[k] == p1[k];
    assert PairName(p2, a2, b2)[k] == p2[k];
  }
}
