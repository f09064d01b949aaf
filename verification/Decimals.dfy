/** Decimal texts: digits, padding, stripped zeros, and numbers scaled to a fixed count of fractional digits. */
module Decimals {
  import opened Wrappers

  predicate IsDigit(c: char) {
    '0' <= c <= '9'
  }

  predicate AllDigits(s: string) {
    forall c | c in s :: IsDigit(c)
  }

  function DigitValue(c: char): nat
    requires IsDigit(c)
  {
    (c as int) - ('0' as int)
  }

  function DigitChar(d: nat): (c: char)
    requires d < 10
    ensures IsDigit(c) && DigitValue(c) == d
  {
    (('0' as int) + d) as char
  }

  /** The decimal digits of a number, without leading zeros. */
  function Digits(n: nat): string {
    if n < 10 then [DigitChar(n)] else Digits(n / 10) + [DigitChar(n % 10)]
  }

  /** The number a digit text stands for; the empty text stands for zero. */
  function ParseDigits(s: string): nat
    requires AllDigits(s)
  {
    if s == [] then 0
    else
      assert forall c | c in s[..|s| - 1] :: c in s;
      assert s[|s| - 1] in s;
      10 * ParseDigits(s[..|s| - 1]) + DigitValue(s[|s| - 1])
  }

  function Pow10(n: nat): nat {
    if n == 0 then 1 else 10 * Pow10(n - 1)
  }

  function Zeros(n: nat): (s: string)
    ensures |s| == n && forall c | c in s :: c == '0'
  {
    seq(n, i => '0')
  }

  function PadStart(s: string, n: nat): string {
    if |s| < n then Zeros(n - |s|) + s else s
  }

  function PadEnd(s: string, n: nat): string {
    if |s| < n then s + Zeros(n - |s|) else s
  }

  function StripZeros(s: string): string {
    if s != [] && s[|s| - 1] == '0' then StripZeros(s[..|s| - 1]) else s
  }

  // ---- digits ----

  lemma {:induction false} DigitsParse(n: nat)
    ensures Digits(n) != [] && AllDigits(Digits(n)) && ParseDigits(Digits(n)) == n
  {
    if n < 10 {
      assert Digits(n)[..0] == [];
    } else {
      DigitsParse(n / 10);
      var d := Digits(n / 10);
      assert (d + [DigitChar(n % 10)])[..|d|] == d;
    }
  }

  lemma {:induction false} DigitsFit(n: nat, k: nat)
    requires n < Pow10(k) && k > 0
    ensures |Digits(n)| <= k
  {
    if n >= 10 { DigitsFit(n / 10, k - 1); }
  }

  lemma {:induction false} ParseJoined(a: string, b: string)
    requires AllDigits(a) && AllDigits(b)
    ensures AllDigits(a + b) && ParseDigits(a + b) == ParseDigits(a) * Pow10(|b|) + ParseDigits(b)
  {
    if b == [] {
      assert a + b == a;
    } else {
      var front := b[..|b| - 1];
      assert AllDigits(front) by { assert forall c | c in front :: c in b; }
      assert b[|b| - 1] in b;
      ParseJoined(a, front);
      assert (a + b)[..|a + b| - 1] == a + front;
      Distribute(ParseDigits(a), Pow10(|front|));
    }
  }

  lemma Distribute(x: nat, y: nat)
    ensures 10 * (x * y) == x * (10 * y)
  {
  }

  lemma {:induction false} ZerosParse(n: nat)
    ensures AllDigits(Zeros(n)) && ParseDigits(Zeros(n)) == 0
  {
    if n > 0 {
      ZerosParse(n - 1);
      assert Zeros(n)[..n - 1] == Zeros(n - 1);
    }
  }

  lemma PadStartParse(s: string, n: nat)
    requires AllDigits(s)
    ensures AllDigits(PadStart(s, n)) && ParseDigits(PadStart(s, n)) == ParseDigits(s)
  {
    if |s| < n {
      ZerosParse(n - |s|);
      ParseJoined(Zeros(n - |s|), s);
    }
  }

  lemma PadEndParse(s: string, n: nat)
    requires AllDigits(s) && |s| <= n
    ensures AllDigits(PadEnd(s, n)) && |PadEnd(s, n)| == n
            && ParseDigits(PadEnd(s, n)) == ParseDigits(s) * Pow10(n - |s|)
  {
    if |s| < n {
      ZerosParse(n - |s|);
      ParseJoined(s, Zeros(n - |s|));
    }
  }

  lemma {:induction false} DigitsBelow(s: string)
    requires AllDigits(s)
    ensures ParseDigits(s) < Pow10(|s|)
  {
    if s != [] {
      assert forall c | c in s[..|s| - 1] :: c in s;
      assert s[|s| - 1] in s;
      DigitsBelow(s[..|s| - 1]);
    }
  }

  // ---- stripping ----

  lemma {:induction false} StripPads(s: string)
    requires AllDigits(s)
    ensures AllDigits(StripZeros(s)) && |StripZeros(s)| <= |s| && PadEnd(StripZeros(s), |s|) == s
    ensures StripZeros(s) != [] ==> StripZeros(s)[|StripZeros(s)| - 1] != '0'
  {
    if s != [] && s[|s| - 1] == '0' {
      var front := s[..|s| - 1];
      assert AllDigits(front) by { assert forall c | c in front :: c in s; }
      StripPads(front);
      var t := StripZeros(front);
      assert s == front + ['0'];
      assert t + Zeros(|s| - |t|) == (t + Zeros(|front| - |t|)) + ['0'];
    }
  }

  /** Padding a text twice is padding it to the longer length. */
  lemma PadTwice(s: string, m: nat, n: nat)
    requires m <= n
    ensures PadEnd(PadEnd(s, m), n) == PadEnd(s, n)
  {
    if |s| < m { assert (s + Zeros(m - |s|)) + Zeros(n - m) == s + Zeros(n - |s|); }
  }

  // ---- scaled numbers ----

  /** The position of the first point, or the length without one. */
  function Point(s: string): (i: nat)
    ensures i <= |s| && (forall j | 0 <= j < i :: s[j] != '.') && (i < |s| ==> s[i] == '.')
  {
    if s == [] || s[0] == '.' then 0 else 1 + Point(s[1..])
  }

  /** Digits with an optional point and one to `most` fractional digits, read as a number of 10^scale parts. */
  function ParseScaled(s: string, most: nat, scale: nat): Option<nat> {
    var i := Point(s);
    var whole, fraction := s[..i], if i < |s| then s[i + 1..] else [];
    if whole == [] || !AllDigits(whole) || !AllDigits(fraction) || |fraction| > most || (i < |s| && fraction == [])
    then None
    else
      PadEndDigits(fraction, scale);
      Some(ParseDigits(whole) * Pow10(scale) + ParseDigits(PadEnd(fraction, scale)))
  }

  lemma PadEndDigits(s: string, n: nat)
    requires AllDigits(s)
    ensures AllDigits(PadEnd(s, n))
  {
  }

  lemma PointOf(whole: string, fraction: string)
    requires AllDigits(whole)
    ensures Point(whole + "." + fraction) == |whole| && Point(whole) == |whole|
  {
    var s := whole + "." + fraction;
    var i := Point(s);
    assert forall j | 0 <= j < |whole| :: s[j] == whole[j] && whole[j] in whole;
    assert s[|whole|] == '.';
  }

  /** A whole part and a fraction are read back as the number they make up. */
  lemma ScaledParses(whole: string, fraction: string, most: nat, scale: nat)
    requires AllDigits(whole) && whole != [] && AllDigits(fraction) && 0 < |fraction| <= most
    ensures AllDigits(PadEnd(fraction, scale))
    ensures ParseScaled(whole + "." + fraction, most, scale)
            == Some(ParseDigits(whole) * Pow10(scale) + ParseDigits(PadEnd(fraction, scale)))
  {
    hide Pow10, ParseDigits, PadEnd, Point, AllDigits;
    var s := whole + "." + fraction;
    PointOf(whole, fraction);
    PadEndDigits(fraction, scale);
    assert s[..|whole|] == whole && s[|whole| + 1..] == fraction;
  }

  /** Reading back a whole part with a fraction that pads to the last digits of the number. */
  lemma ScaledRoundTrip(whole: nat, rest: nat, fraction: string, most: nat, scale: nat)
    requires AllDigits(fraction) && 0 < |fraction| <= most
    requires PadEnd(fraction, scale) == PadStart(Digits(rest), scale)
    ensures ParseScaled(Digits(whole) + "." + fraction, most, scale) == Some(whole * Pow10(scale) + rest)
  {
    hide ParseScaled, Pow10, Digits, ParseDigits, PadEnd, PadStart, AllDigits;
    DigitsParse(whole);
    DigitsParse(rest);
    PadStartParse(Digits(rest), scale);
    ScaledParses(Digits(whole), fraction, most, scale);
  }

  /** The same for a number without fractional parts and without a point. */
  lemma WholeRoundTrip(whole: nat, most: nat, scale: nat)
    ensures ParseScaled(Digits(whole), most, scale) == Some(whole * Pow10(scale))
  {
    hide Pow10, Digits;
    var s := Digits(whole);
    DigitsParse(whole);
    PointOf(s, "");
    assert s[..|s|] == s;
    ZerosParse(scale);
    assert PadEnd("", scale) == Zeros(scale);
  }
}
