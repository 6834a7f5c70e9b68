/**
  Decimal digit strings: recognising ASCII digits, reading a digit string as a
  natural number, and writing a natural number without leading zeros. These are
  the building blocks of the amount normaliser (the `\d` class of its regular
  expression, `parseFloat`) and of the report's date and total texts.
*/
module Digits {

  /** The `\d` character class of a JavaScript regular expression without the `u` flag. */
  predicate IsDigit(c: char) {
    '0' <= c <= '9'
  }

  predicate AllDigits(s: string) {
    forall i {:trigger IsDigit(s[i])} :: 0 <= i < |s| ==> IsDigit(s[i])
  }

  function DigitValue(c: char): (d: nat)
    requires IsDigit(c)
    ensures d < 10
  {
    c as int - '0' as int
  }

  function DigitChar(d: nat): (c: char)
    requires d < 10
    ensures IsDigit(c) && DigitValue(c) == d
  {
    ('0' as int + d) as char
  }

  function Pow10(n: nat): (p: nat)
    ensures p >= 1
  {
    if n == 0 then 1 else 10 * Pow10(n - 1)
  }

  /** The number a digit string denotes, most significant digit first. */
  function Value(s: string): nat
    requires AllDigits(s)
  {
    if |s| == 0 then 0 else 10 * Value(s[..|s| - 1]) + DigitValue(s[|s| - 1])
  }

  /** Length of the longest prefix of `s` made of digits (what a greedy `\d*` consumes). */
  function LeadingDigits(s: string): (n: nat)
    ensures n <= |s|
    ensures AllDigits(s[..n])
    ensures n < |s| ==> !IsDigit(s[n])
  {
    if |s| == 0 || !IsDigit(s[0]) then 0 else 1 + LeadingDigits(s[1..])
  }

  /** Decimal representation of `n` as JavaScript prints a non-negative integer: no padding. */
  function NatToString(n: nat): (s: string)
    ensures |s| >= 1 && AllDigits(s)
    ensures Value(s) == n
    ensures s[0] == '0' ==> n == 0
  {
    if n < 10 then [DigitChar(n)]
    else
      var init := NatToString(n / 10);
      var s := init + [DigitChar(n % 10)];
      assert s[..|s| - 1] == init;
      s
  }

  // ---------------------------------------------------------------------------
  // Lemmas

  /** A digit run followed by a non-digit: `\d*` stops exactly at the end of the run. */
  lemma {:induction false} LeadingDigitsOfRun(a: string, b: string)
    requires AllDigits(a)
    requires |b| == 0 || !IsDigit(b[0])
    ensures LeadingDigits(a + b) == |a|
  {
    if a != [] {
      assert (a + b)[1..] == a[1..] + b;
      LeadingDigitsOfRun(a[1..], b);
    } else {
      assert a + b == b;
    }
  }

  /** A text made only of digits is consumed entirely by `\d*`. */
  lemma LeadingDigitsOfAll(s: string)
    requires AllDigits(s)
    ensures LeadingDigits(s) == |s|
  {
    LeadingDigitsOfRun(s, []);
    assert s + [] == s;
  }

  /** `\d*` stops at the first non-digit. */
  lemma LeadingDigitsStopsAt(s: string, i: nat)
    requires i < |s| && !IsDigit(s[i]) && AllDigits(s[..i])
    ensures LeadingDigits(s) == i
  {
    assert s == s[..i] + s[i..];
    LeadingDigitsOfRun(s[..i], s[i..]);
  }

  /** Appending one digit multiplies by ten and adds it. */
  lemma ValueSnoc(s: string, c: char)
    requires AllDigits(s) && IsDigit(c)
    ensures AllDigits(s + [c])
    ensures Value(s + [c]) == 10 * Value(s) + DigitValue(c)
  {
    assert (s + [c])[..|s|] == s;
  }

  /** Appending digits shifts the earlier ones by a power of ten. */
  lemma {:induction false} ValueAppend(a: string, b: string)
    requires AllDigits(a) && AllDigits(b)
    ensures AllDigits(a + b)
    ensures Value(a + b) == Value(a) * Pow10(|b|) + Value(b)
  {
    if b == [] {
      assert a + b == a;
    } else {
      var b', c := b[..|b| - 1], b[|b| - 1];
      assert b == b' + [c];
      assert a + b == (a + b') + [c];
      ValueAppend(a, b');
      ValueSnoc(a + b', c);
      ValueSnoc(b', c);
      assert Pow10(|b|) == 10 * Pow10(|b'|);
      ShiftArith(Value(a), Pow10(|b'|), Value(b'), DigitValue(c));
    }
  }

  /** The arithmetic step of ValueAppend, apart from any sequence reasoning. */
  lemma ShiftArith(x: int, p: int, y: int, d: int)
    ensures 10 * (x * p + y) + d == x * (10 * p) + (10 * y + d)
  {
  }

  /** A digit string of length n denotes a number below 10^n. */
  lemma {:induction false} ValueBound(s: string)
    requires AllDigits(s)
    ensures Value(s) < Pow10(|s|)
  {
    if s != [] {
      ValueBound(s[..|s| - 1]);
    }
  }

  /** Different numbers print differently. */
  lemma NatToStringInjective(m: nat, n: nat)
    requires NatToString(m) == NatToString(n)
    ensures m == n
  {
  }
}
