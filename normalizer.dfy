/**
  The amount normaliser `parseToTwoDecimals` of the rent calculator
  (src/App.tsx:20-22).

  A missing or empty field becomes the text "0". A regular expression keeps
  the longest leading run of digits, an optional dot and at most two further
  digits, and drops the rest of the text. `parseFloat` reads what was kept, and
  a NaN result (nothing numeric was kept) is replaced by 0.

  Every value the normaliser can produce is a whole number of hundredths, so a
  JavaScript number is modelled here as NaN or an exact count of cents.
*/
module Normalizer {
  import opened Digits

  datatype Option<T> = None | Some(value: T)

  /** A JavaScript number restricted to what this application produces:
      NaN, or an exact multiple of 0.01 held as a count of hundredths. */
  datatype Number = NaN | Cents(c: int)

  /** The falsy numbers, which the normaliser replaces by 0. */
  predicate Falsy(n: Number) {
    n == NaN || n == Cents(0)
  }

  /** A field's text with a fallback for when it is falsy: undefined and the
      empty string are falsy, every other text is kept as it is. The result is
      the field's own text or the fallback, and it is never empty unless the
      fallback is. */
  function OrElse(v: Option<string>, fallback: string): (t: string)
    ensures v == Some(t) || t == fallback
    ensures |fallback| > 0 ==> |t| > 0
  {
    if v.None? || |v.value| == 0 then fallback else v.value
  }

  /** `p` is matched in full by `\d*\.?\d{0,2}`: digits, or digits, a dot and at most
      two digits. */
  predicate MatchesInFull(p: string) {
    AllDigits(p) ||
    exists i :: 0 <= i < |p| && p[i] == '.' && AllDigits(p[..i]) && AllDigits(p[i + 1..]) && |p| - i <= 3
  }

  /** The same shape read off where the leading digits end, the way a greedy
      matcher reads it. */
  predicate TwoDecimalShape(p: string) {
    var d := LeadingDigits(p);
    d == |p| || (p[d] == '.' && AllDigits(p[d + 1..]) && |p| - d <= 3)
  }

  /** The part of the text the regular expression keeps: its capture group, which
      replaces the whole text. On a text without line terminators the pattern
      always matches, because its tail takes whatever follows the capture, so
      the greedy first choice of each part is the match. */
  function KeepTwoDecimals(s: string): (p: string)
    ensures p <= s
    ensures TwoDecimalShape(p)
  {
    var d := LeadingDigits(s);
    if d < |s| && s[d] == '.' then
      var f := LeadingDigits(s[d + 1..]);
      var m := if f < 2 then f else 2;
      var p := s[..d + 1 + m];
      assert p[..d] == s[..d];
      assert p[d + 1..] == s[d + 1..][..m];
      LeadingDigitsStopsAt(p, d);
      p
    else
      LeadingDigitsOfAll(s[..d]);
      s[..d]
  }

  /** The greedy reading and the declarative one agree. */
  lemma ShapeAgrees(p: string)
    ensures MatchesInFull(p) <==> TwoDecimalShape(p)
  {
    var d := LeadingDigits(p);
    if MatchesInFull(p) {
      if AllDigits(p) {
        LeadingDigitsOfAll(p);
      } else {
        var i :| 0 <= i < |p| && p[i] == '.' && AllDigits(p[..i]) && AllDigits(p[i + 1..]) && |p| - i <= 3;
        LeadingDigitsStopsAt(p, i);
      }
    }
    if d == |p| {
      assert p[..d] == p;
    } else if p[d] == '.' && AllDigits(p[d + 1..]) && |p| - d <= 3 {
      assert AllDigits(p[..d]);
    }
  }

  /** The digits before the dot (all of the text when it has no dot). */
  function IntegerDigits(p: string): (ip: string)
    ensures AllDigits(ip)
  {
    p[..LeadingDigits(p)]
  }

  /** The digits after the dot (none when the text has no dot). */
  function FractionDigits(p: string): string {
    var d := LeadingDigits(p);
    if d < |p| then p[d + 1..] else ""
  }

  /** `parseFloat` on a text of the two-decimal shape, which is all it is given here:
      NaN when no digit was kept, otherwise the exact number of hundredths. */
  function ParseFloat(p: string): Number
    requires TwoDecimalShape(p)
  {
    var ip, fr := IntegerDigits(p), FractionDigits(p);
    if |ip| == 0 && |fr| == 0 then NaN
    else Cents(100 * Value(ip) + FracHundredths(fr))
  }

  /** Hundredths denoted by at most two fractional digits: "5" is 50, "05" is 5. */
  function FracHundredths(frac: string): nat
    requires AllDigits(frac) && |frac| <= 2
  {
    Value(frac) * Pow10(2 - |frac|)
  }

  /** `parseToTwoDecimals`: never NaN and never negative, so always a whole,
      non-negative number of hundredths. */
  function Normalize(v: Option<string>): (n: Number)
    ensures n.Cents? && n.c >= 0
  {
    var parsed := ParseFloat(KeepTwoDecimals(OrElse(v, "0")));
    if Falsy(parsed) then Cents(0) else parsed
  }

  // ---------------------------------------------------------------------------
  // Lemmas

  /** The kept text is matched in full by the pattern. */
  lemma KeepTwoDecimalsMatches(s: string)
    ensures MatchesInFull(KeepTwoDecimals(s))
  {
    ShapeAgrees(KeepTwoDecimals(s));
  }

  /** ... and it is the LONGEST prefix of the input that is. */
  lemma KeepTwoDecimalsIsLongest(s: string, k: nat)
    requires |KeepTwoDecimals(s)| < k <= |s|
    ensures !MatchesInFull(s[..k])
  {
    var d := LeadingDigits(s);
    var t := s[..k];
    assert t[..d] == s[..d];
    assert t[d] == s[d];
    LeadingDigitsStopsAt(t, d);
    ShapeAgrees(t);
    if s[d] == '.' {
      var f := LeadingDigits(s[d + 1..]);
      if f < 2 {
        assert t[d + 1..][f] == s[d + 1..][f];
        assert !AllDigits(t[d + 1..]);
      } else {
        assert |t| - d > 3;
      }
    } else {
      assert t[d] != '.';
    }
  }

  lemma Pow10Add(a: nat, b: nat)
    ensures Pow10(a + b) == Pow10(a) * Pow10(b)
  {
    if a > 0 {
      Pow10Add(a - 1, b);
      assert Pow10(a + b) == 10 * (Pow10(a - 1) * Pow10(b));
    }
  }

  /** Digits followed by neither a digit nor a dot: the digits are kept. */
  lemma KeepWhole(ip: string, rest: string)
    requires AllDigits(ip)
    requires |rest| == 0 || (!IsDigit(rest[0]) && rest[0] != '.')
    ensures KeepTwoDecimals(ip + rest) == ip
  {
    LeadingDigitsOfRun(ip, rest);
    assert (ip + rest)[..|ip|] == ip;
  }

  /** Digits, a dot and more digits: the dot and at most two of the later digits are kept. */
  lemma KeepFraction(ip: string, fs: string, rest: string)
    requires AllDigits(ip) && AllDigits(fs)
    requires |rest| == 0 || !IsDigit(rest[0])
    ensures var m := if |fs| < 2 then |fs| else 2;
      KeepTwoDecimals(ip + "." + fs + rest) == ip + "." + fs[..m]
  {
    var s := ip + "." + fs + rest;
    var m := if |fs| < 2 then |fs| else 2;
    DecimalRuns(ip, fs, rest);
    assert s[..|ip| + 1 + m] == ip + "." + fs[..m];
  }

  /** Where the two digit runs of `ip.fs` followed by a non-digit end. */
  lemma DecimalRuns(ip: string, fs: string, rest: string)
    requires AllDigits(ip) && AllDigits(fs)
    requires |rest| == 0 || !IsDigit(rest[0])
    ensures var s := ip + "." + fs + rest;
      LeadingDigits(s) == |ip| && s[|ip|] == '.' && LeadingDigits(s[|ip| + 1..]) == |fs|
  {
    var s := ip + "." + fs + rest;
    assert s == ip + ("." + fs + rest);
    LeadingDigitsOfRun(ip, "." + fs + rest);
    assert s[|ip| + 1..] == fs + rest;
    LeadingDigitsOfRun(fs, rest);
  }

  /** `parseFloat` of a digit run: NaN when empty, otherwise that many units. */
  lemma ParseWhole(ip: string)
    requires AllDigits(ip)
    ensures TwoDecimalShape(ip)
    ensures ParseFloat(ip) == if |ip| == 0 then NaN else Cents(100 * Value(ip))
  {
    SplitWhole(ip);
    ParseFloatParts(ip, ip, FractionDigits(ip));
  }

  /** A digit run has no dot: all of it is the integer part. */
  lemma SplitWhole(ip: string)
    requires AllDigits(ip)
    ensures TwoDecimalShape(ip) && IntegerDigits(ip) == ip && |FractionDigits(ip)| == 0
  {
    LeadingDigitsOfAll(ip);
    assert ip[..|ip|] == ip;
  }

  /** `parseFloat` in terms of the two digit runs of its text. */
  lemma ParseFloatParts(p: string, ip: string, fr: string)
    requires TwoDecimalShape(p) && IntegerDigits(p) == ip && FractionDigits(p) == fr
    ensures AllDigits(fr) && |fr| <= 2
    ensures ParseFloat(p) == if |ip| == 0 && |fr| == 0 then NaN else Cents(100 * Value(ip) + FracHundredths(fr))
  {
  }

  /** Digits, a dot and at most two digits split back into their parts. */
  lemma SplitDecimal(ip: string, fr: string)
    requires AllDigits(ip) && AllDigits(fr) && |fr| <= 2
    ensures TwoDecimalShape(ip + "." + fr)
    ensures IntegerDigits(ip + "." + fr) == ip
    ensures FractionDigits(ip + "." + fr) == fr
  {
    var p := ip + "." + fr;
    var d := |ip|;
    assert p[..d] == ip;
    assert p[d + 1..] == fr;
    LeadingDigitsStopsAt(p, d);
  }

  /** The number of hundredths in the decimal number `ip.fs`, rounded down. */
  function FloorHundredths(ip: string, fs: string): int
    requires AllDigits(ip) && AllDigits(fs)
  {
    100 * (Value(ip) * Pow10(|fs|) + Value(fs)) / Pow10(|fs|)
  }

  /** `parseFloat` of digits, a dot and at most two digits, given as their parts. */
  lemma ParseDecimal(ip: string, fr: string)
    requires AllDigits(ip) && AllDigits(fr) && |fr| <= 2
    ensures TwoDecimalShape(ip + "." + fr)
    ensures ParseFloat(ip + "." + fr) ==
      if |ip| == 0 && |fr| == 0 then NaN else Cents(100 * Value(ip) + FracHundredths(fr))
  {
    SplitDecimal(ip, fr);
    ParseFloatParts(ip + "." + fr, ip, fr);
  }

  /** Text whose numeric part has no dot: the amount is its integer digits, in
      hundredths; an empty numeric part (a sign, a letter, a space, no text) is 0. */
  lemma NormalizeWholeNumber(ip: string, rest: string)
    requires AllDigits(ip)
    requires |rest| == 0 || (!IsDigit(rest[0]) && rest[0] != '.')
    ensures Normalize(Some(ip + rest)) == Cents(100 * Value(ip))
  {
    if |ip + rest| == 0 {
      assert "0" == "0" + [];
      KeepWhole("0", []);
      ParseWhole("0");
      assert "0"[..0] == "";
    } else {
      KeepWhole(ip, rest);
      ParseWhole(ip);
    }
  }

  /** The fractional digits beyond the second are dropped, never rounded: the amount
      in hundredths is the floor of 100 times the leading decimal number of the text. */
  lemma NormalizeTruncates(ip: string, fs: string, rest: string)
    requires AllDigits(ip) && AllDigits(fs)
    requires |rest| == 0 || !IsDigit(rest[0])
    ensures Normalize(Some(ip + "." + fs + rest)) == Cents(FloorHundredths(ip, fs))
  {
    var m := if |fs| < 2 then |fs| else 2;
    NormalizeKept(ip, fs, rest);
    TruncationArith(ip, fs, m, 100 * Value(ip) + FracHundredths(fs[..m]));
  }

  /** The amount read from `ip.fs`: the integer digits and the first two fractional ones. */
  lemma NormalizeKept(ip: string, fs: string, rest: string)
    requires AllDigits(ip) && AllDigits(fs)
    requires |rest| == 0 || !IsDigit(rest[0])
    ensures var m := if |fs| < 2 then |fs| else 2;
      Normalize(Some(ip + "." + fs + rest)) == Cents(100 * Value(ip) + FracHundredths(fs[..m]))
  {
    var m := if |fs| < 2 then |fs| else 2;
    var s, kept := ip + "." + fs + rest, fs[..m];
    KeepFraction(ip, fs, rest);
    NormalizeKeeps(Some(s), s, ip + "." + kept);
    ParseDecimal(ip, kept);
    if |ip| == 0 && m == 0 {
      NoDigitsNoHundredths(ip, kept);
    }
  }

  /** The normaliser is `parseFloat` of the kept text, with NaN and 0 read as 0. */
  lemma NormalizeKeeps(v: Option<string>, t: string, p: string)
    requires OrElse(v, "0") == t && KeepTwoDecimals(t) == p
    ensures TwoDecimalShape(p)
    ensures Normalize(v) == if Falsy(ParseFloat(p)) then Cents(0) else ParseFloat(p)
  {
  }

  lemma NoDigitsNoHundredths(ip: string, fr: string)
    requires |ip| == 0 && |fr| == 0
    ensures 100 * Value(ip) + FracHundredths(fr) == 0
  {
  }

  /** The arithmetic half of NormalizeTruncates. */
  lemma TruncationArith(ip: string, fs: string, m: nat, c: int)
    requires AllDigits(ip) && AllDigits(fs) && m == (if |fs| < 2 then |fs| else 2)
    requires c == 100 * Value(ip) + FracHundredths(fs[..m])
    ensures c == FloorHundredths(ip, fs)
  {
    var vi := Value(ip);
    var n := |fs|;
    var kept := fs[..m];
    if n <= 2 {
      assert kept == fs;
      Pow10Add(2 - n, n);
      assert Pow10(2) == 100;
      ExactArith(vi, Value(fs), Pow10(2 - n), Pow10(n), c);
    } else {
      var tail := fs[2..];
      assert fs == kept + tail;
      ValueAppend(kept, tail);
      ValueBound(tail);
      Pow10Add(2, n - 2);
      assert Pow10(2) == 100;
      assert Pow10(2 - m) == 1;
      FloorArith(vi, Value(kept), Value(tail), Pow10(n - 2), c);
    }
  }

  /** Integer division rounds down: a quotient is pinned by its remainder. */
  lemma DivUnique(x: int, scale: int, c: int)
    requires scale > 0 && 0 <= x - c * scale < scale
    ensures c == x / scale
  {
    var q := x / scale;
    var r := x - q * scale;
    assert 0 <= r < scale;
    assert q * scale - c * scale == (q - c) * scale;
    if c < q {
      MulAtLeast(q - c, scale);
    } else if c > q {
      MulAtLeast(c - q, scale);
    }
  }

  lemma {:induction false} MulAtLeast(k: int, s: int)
    requires k >= 1 && s > 0
    ensures k * s >= s
  {
    if k > 1 {
      MulAtLeast(k - 1, s);
      assert k * s == (k - 1) * s + s;
    }
  }

  /** No digit dropped: the kept hundredths are exact. */
  lemma ExactArith(vi: int, f: int, q: int, scale: int, c: int)
    requires scale > 0 && q * scale == 100
    requires c == 100 * vi + f * q
    ensures c == 100 * (vi * scale + f) / scale
  {
    assert c * scale == 100 * vi * scale + f * (q * scale);
    DivUnique(100 * (vi * scale + f), scale, c);
  }

  /** Digits dropped past the second: they add less than one hundredth. */
  lemma FloorArith(vi: int, k: int, tail: int, t: int, c: int)
    requires 0 <= tail < t
    requires c == 100 * vi + k
    ensures c == 100 * (vi * (100 * t) + (k * t + tail)) / (100 * t)
  {
    var scale := 100 * t;
    assert c * scale == 100 * vi * scale + 100 * (k * t);
    assert 100 * (vi * scale + (k * t + tail)) == 100 * vi * scale + 100 * (k * t) + 100 * tail;
    DivUnique(100 * (vi * scale + (k * t + tail)), scale, c);
  }

  /** "10.999" keeps 10.99: the third fractional digit is dropped, not rounded. */
  lemma ExampleTruncation()
    ensures Normalize(Some("10.999")) == Cents(1099)
  {
    assert "10.999" == "10" + "." + "999" + "";
    NormalizeTruncates("10", "999", "");
    FloorHundredthsExamples();
  }

  /** "1.2.3" keeps 1.2: the second dot ends the number. */
  lemma ExampleSecondDot()
    ensures Normalize(Some("1.2.3")) == Cents(120)
  {
    assert "1.2.3" == "1" + "." + "2" + ".3";
    NormalizeTruncates("1", "2", ".3");
    FloorHundredthsExamples();
  }

  lemma FloorHundredthsExamples()
    ensures FloorHundredths("10", "999") == 1099
    ensures FloorHundredths("1", "2") == 120
    ensures Value("12") == 12
  {
    assert "12"[..1] == "1";
    assert "10"[..1] == "1" && "999"[..2] == "99" && "99"[..1] == "9";
    assert Value("10") == 10 && Value("999") == 999;
    assert Pow10(|"999"|) == 1000;
  }

  /** "12abc" keeps 12: trailing letters are dropped. */
  lemma ExampleTrailingLetters()
    ensures Normalize(Some("12abc")) == Cents(1200)
  {
    assert "12abc" == "12" + "abc";
    NormalizeWholeNumber("12", "abc");
    FloorHundredthsExamples();
  }

  /** A sign and a lone dot give 0: "-5" is not -5. */
  lemma ExampleZeroes()
    ensures Normalize(Some("-5")) == Cents(0)
    ensures Normalize(Some(".")) == Cents(0)
  {
    assert "-5" == "" + "-5";
    NormalizeWholeNumber("", "-5");
    assert "." == "" + "." + "" + "";
    NormalizeTruncates("", "", "");
  }

  /** A missing field and an empty field both read as the text "0". */
  lemma ExampleEmpty()
    ensures Normalize(Some("")) == Cents(0) && Normalize(None) == Cents(0)
  {
    assert "0" == "0" + "";
    NormalizeWholeNumber("0", "");
    assert Value("0") == 0;
  }
}
