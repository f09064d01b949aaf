/** Line arithmetic with decimal texts (src/commercial-lines.ts), and the signed money texts of
    src/accounting-basis-projection.ts. */
module CommercialLines {
  import opened Wrappers
  import opened Decimals

  // ---- printers ----

  function Money(value: nat): string {
    Digits(value / 100) + "." + PadStart(Digits(value % 100), 2)
  }

  function QuantityString(value: nat): string {
    var whole, fraction := Digits(value / 10000), StripZeros(PadStart(Digits(value % 10000), 4));
    if fraction == [] then whole else whole + "." + fraction
  }

  function UnitRateString(value: nat): string {
    Digits(value / 10000) + "." + PadEnd(StripZeros(PadStart(Digits(value % 10000), 4)), 2)
  }

  // ---- parsers ----

  function ParseMoney(s: string, allowZero: bool): Option<nat> {
    var v := ParseScaled(s, 2, 2);
    if v == Some(0) && !allowZero then None else v
  }

  function ParseQuantity(s: string): Option<nat> {
    var v := ParseScaled(s, 4, 4);
    if v == Some(0) then None else v
  }

  datatype Precision = Two | Four

  function ParseUnitRate(s: string, precision: Precision): Option<nat> {
    ParseScaled(s, if precision.Two? then 2 else 4, 4)
  }

  /** An exact unit cost is checked and kept as it is written. */
  predicate ExactUnitCost(s: string) {
    ParseScaled(s, 6, 6).Some?
  }

  // ---- round trips ----

  lemma PowersOfTen()
    ensures Pow10(1) == 10 && Pow10(2) == 100 && Pow10(3) == 1000 && Pow10(4) == 10000
  {
    assert Pow10(1) == 10 * Pow10(0);
  }

  /** The last k digits of a number, zero-padded: k digits that stand for it. */
  lemma LastDigits(r: nat, k: nat)
    requires r < Pow10(k) && k > 0
    ensures var s := PadStart(Digits(r), k); |s| == k && AllDigits(s) && ParseDigits(s) == r
  {
    DigitsParse(r);
    DigitsFit(r, k);
    PadStartParse(Digits(r), k);
  }

  lemma PadFull(s: string, n: nat)
    requires |s| == n
    ensures PadEnd(s, n) == s
  {
  }

  /** Printed money reads back as the same number of cents. */
  lemma MoneyRoundTrip(value: nat)
    ensures ParseScaled(Money(value), 2, 2) == Some(value)
    ensures ParseMoney(Money(value), true) == Some(value)
    ensures ParseMoney(Money(value), false) == if value == 0 then None else Some(value)
  {
    hide Digits, ParseScaled, Pow10, PadStart, PadEnd, AllDigits, ParseDigits;
    PowersOfTen();
    LastDigits(value % 100, 2);
    PadFull(PadStart(Digits(value % 100), 2), 2);
    ScaledRoundTrip(value / 100, value % 100, PadStart(Digits(value % 100), 2), 2, 2);
  }

  /** A printed quantity, its trailing zeros stripped, reads back as the same scaled number. */
  lemma QuantityRoundTrip(value: nat)
    requires value > 0
    ensures ParseQuantity(QuantityString(value)) == Some(value)
  {
    hide Digits, ParseScaled, Pow10, PadStart, PadEnd, AllDigits, ParseDigits, StripZeros;
    PowersOfTen();
    var r := value % 10000;
    LastDigits(r, 4);
    StripPads(PadStart(Digits(r), 4));
    var fraction := StripZeros(PadStart(Digits(r), 4));
    if fraction == [] {
      AllZeros(PadStart(Digits(r), 4), r);
      WholeRoundTrip(value / 10000, 4, 4);
    } else {
      ScaledRoundTrip(value / 10000, r, fraction, 4, 4);
    }
  }

  lemma AllZeros(s: string, r: nat)
    requires AllDigits(s) && ParseDigits(s) == r && PadEnd([], |s|) == s
    ensures r == 0
  {
    ZerosParse(|s|);
    assert [] + Zeros(|s|) == Zeros(|s|);
  }

  /** A printed unit rate reads back as the same scaled number. */
  lemma UnitRateRoundTrip(value: nat)
    ensures ParseUnitRate(UnitRateString(value), Four) == Some(value)
  {
    hide Digits, ParseScaled, Pow10, PadStart, PadEnd, AllDigits, ParseDigits, StripZeros;
    PowersOfTen();
    var r := value % 10000;
    LastDigits(r, 4);
    RateFraction(PadStart(Digits(r), 4));
    ScaledRoundTrip(value / 10000, r, PadEnd(StripZeros(PadStart(Digits(r), 4)), 2), 4, 4);
  }

  /** Four digits stripped of trailing zeros and padded to two again: two to four digits that pad to the same four. */
  lemma RateFraction(s: string)
    requires AllDigits(s) && |s| == 4
    ensures var f := PadEnd(StripZeros(s), 2);
            2 <= |f| <= 4 && AllDigits(f) && PadEnd(f, 4) == s && (|f| > 2 ==> f[|f| - 1] != '0')
  {
    StripPads(s);
    PadTwice(StripZeros(s), 2, 4);
    PadEndDigits(StripZeros(s), 2);
  }

  /** At precision two a printed unit rate is accepted exactly when it has no more than two fractional digits. */
  lemma UnitRatePrecisionTwoIff(value: nat)
    ensures ParseUnitRate(UnitRateString(value), Two) == if value % 100 == 0 then Some(value) else None
  {
    hide Digits, ParseScaled, Pow10, PadStart, PadEnd, AllDigits, ParseDigits, StripZeros;
    PowersOfTen();
    var r := value % 10000;
    var s := PadStart(Digits(r), 4);
    LastDigits(r, 4);
    RateFraction(s);
    var f := PadEnd(StripZeros(s), 2);
    assert r % 100 == value % 100 by { HundredsDivide(value); }
    TwoDigitsIff(s, f, r);
    if |f| <= 2 {
      ScaledRoundTrip(value / 10000, r, f, 2, 4);
    } else {
      TooLong(Digits(value / 10000), f, 2, 4, value / 10000);
    }
  }

  lemma HundredsDivide(value: nat)
    ensures value % 10000 % 100 == value % 100
  {
    var q := value / 10000;
    assert value == 10000 * q + value % 10000;
    assert value % 10000 == 100 * (value % 10000 / 100) + value % 10000 % 100;
    Remainder(100 * q + value % 10000 / 100, value % 10000 % 100);
  }

  lemma Remainder(q: nat, r: nat)
    requires r < 100
    ensures (100 * q + r) % 100 == r
  {
  }

  /** The last two of four digits are zeros exactly when two digits remain. */
  lemma TwoDigitsIff(s: string, f: string, r: nat)
    requires AllDigits(s) && |s| == 4 && ParseDigits(s) == r && AllDigits(f) && 2 <= |f| <= 4 && PadEnd(f, 4) == s
    requires |f| > 2 ==> f[|f| - 1] != '0'
    ensures |f| <= 2 <==> r % 100 == 0
  {
    var t := s[2..];
    assert s == s[..2] + t;
    assert AllDigits(s[..2]) && AllDigits(t) by {
      assert forall c | c in s[..2] :: c in s;
      assert forall c | c in t :: c in s;
    }
    ParseJoined(s[..2], t);
    PowersOfTen();
    DigitsBelow(t);
    Remainder(ParseDigits(s[..2]), ParseDigits(t));
    assert t == [t[0]] + [t[1]];
    ParseTwo(t);
    if |f| <= 2 {
      assert t[0] == '0' && t[1] == '0';
    } else {
      assert s[|f| - 1] == f[|f| - 1];
      assert t[|f| - 3] != '0';
    }
  }

  lemma ParseTwo(t: string)
    requires AllDigits(t) && |t| == 2
    ensures t[0] in t && t[1] in t && ParseDigits(t) == 10 * DigitValue(t[0]) + DigitValue(t[1])
  {
    var u := [t[0]];
    assert t[..1] == u && u[..0] == [];
    assert t[0] in t && t[1] in t;
    assert ParseDigits(u) == 10 * ParseDigits([]) + DigitValue(u[0]);
  }

  lemma TooLong(whole: string, fraction: string, most: nat, scale: nat, n: nat)
    requires whole == Digits(n) && AllDigits(fraction) && |fraction| > most
    ensures ParseScaled(whole + "." + fraction, most, scale) == None
  {
    hide Pow10, ParseDigits, PadEnd, Point, Digits;
    DigitsParse(n);
    var s := whole + "." + fraction;
    PointOf(whole, fraction);
    assert s[..|whole|] == whole && s[|whole| + 1..] == fraction;
  }

  // ---- signed money ----

  function MinorMoney(value: int): string {
    if value < 0 then "-" + Money(-value) else Money(value)
  }

  function MoneyMinor(s: string): Option<int> {
    var negative := s != [] && s[0] == '-';
    match ParseScaled(if negative then s[1..] else s, 2, 2)
    case None => None
    case Some(v) => var k: int := v; Some(if negative then -k else k)
  }

  /** Signed money texts keep every number of cents, and carry a minus exactly below zero. */
  lemma SignedMoneyRoundTrip(value: int)
    ensures MoneyMinor(MinorMoney(value)) == Some(value)
    ensures MinorMoney(value) != [] && (MinorMoney(value)[0] == '-' <==> value < 0)
  {
    hide Digits, ParseScaled, PadStart;
    var m := Money(if value < 0 then -value else value);
    MoneyRoundTrip(if value < 0 then -value else value);
    MoneyStartsWithDigit(if value < 0 then -value else value);
    assert ("-" + m)[1..] == m;
  }

  lemma MoneyStartsWithDigit(value: nat)
    ensures Money(value) != [] && Money(value)[0] != '-'
  {
    hide PadStart;
    DigitsParse(value / 100);
    assert Digits(value / 100)[0] in Digits(value / 100);
  }

  /** Different numbers of cents have different texts. */
  lemma SignedMoneyInjective(a: int, b: int)
    requires MinorMoney(a) == MinorMoney(b)
    ensures a == b
  {
    hide MinorMoney, MoneyMinor;
    SignedMoneyRoundTrip(a);
    SignedMoneyRoundTrip(b);
  }

  // ---- normalisation ----

  datatype LineInput = LineInput(
    amount: string, quantity: Option<string>, unitAmount: Option<string>, unitCost: Option<string>,
    discountAmount: Option<string>, taxAmount: Option<string>, start: Option<int>, end: Option<int>)

  datatype NormalizedLine = NormalizedLine(
    amount: string, quantity: string, unitAmount: string, unitCost: Option<string>,
    discountAmount: string, taxAmount: string, start: Option<int>, end: Option<int>)

  datatype Refusal =
    | InvalidAmount
    | QuantityWithoutUnit
    | InvalidQuantity
    | InvalidUnitAmount
    | InvalidUnitCost
    | InvalidDiscount
    | InvalidTax
    | DiscountExceedsPrice
    | AmountMismatch
    | InvalidPeriod

  function Or(o: Option<string>, default_: string): string {
    if o.Some? then o.value else default_
  }

  /** Half-up rounding of a nonnegative quotient. */
  function DivideRoundedHalfUp(numerator: nat, denominator: nat): nat
    requires denominator > 0
  {
    (numerator + denominator / 2) / denominator
  }

  /** Quantity times rate, both in ten-thousandths, in cents. */
  function Extended(quantity: nat, rate: nat): nat {
    DivideRoundedHalfUp(quantity * rate, 1000000)
  }

  function Normalize(input: LineInput, precision: Precision): Result<NormalizedLine, Refusal> {
    var amount := ParseMoney(input.amount, false);
    if amount.None? then Err(InvalidAmount)
    else if input.quantity.None? != input.unitAmount.None? then Err(QuantityWithoutUnit)
    else
      var quantity := ParseQuantity(Or(input.quantity, "1"));
      var rate := ParseUnitRate(Or(input.unitAmount, input.amount), precision);
      var discount := ParseMoney(Or(input.discountAmount, "0.00"), true);
      var tax := ParseMoney(Or(input.taxAmount, "0.00"), true);
      if quantity.None? then Err(InvalidQuantity)
      else if rate.None? then Err(InvalidUnitAmount)
      else if input.unitCost.Some? && !ExactUnitCost(input.unitCost.value) then Err(InvalidUnitCost)
      else if discount.None? then Err(InvalidDiscount)
      else if tax.None? then Err(InvalidTax)
      else
        var extended := Extended(quantity.value, rate.value);
        if discount.value > extended then Err(DiscountExceedsPrice)
        else if extended - discount.value + tax.value != amount.value then Err(AmountMismatch)
        else if input.start.Some? && input.end.Some? && input.start.value > input.end.value then Err(InvalidPeriod)
        else Ok(NormalizedLine(
          Money(amount.value), QuantityString(quantity.value), UnitRateString(rate.value), input.unitCost,
          Money(discount.value), Money(tax.value), input.start, input.end))
  }

  /** A normalised line given as an input again. */
  function AsInput(n: NormalizedLine): LineInput {
    LineInput(n.amount, Some(n.quantity), Some(n.unitAmount), n.unitCost, Some(n.discountAmount), Some(n.taxAmount),
              n.start, n.end)
  }

  lemma HalfUpBounds(numerator: nat, denominator: nat)
    requires denominator > 0 && denominator % 2 == 0
    ensures numerator - denominator / 2 < DivideRoundedHalfUp(numerator, denominator) * denominator
            <= numerator + denominator / 2
  {
    var m := numerator + denominator / 2;
    assert m == (m / denominator) * denominator + m % denominator;
  }

  /** A parsed rate of precision two is a whole number of cents. */
  lemma RateOfPrecisionTwo(s: string)
    requires ParseUnitRate(s, Two).Some?
    ensures ParseUnitRate(s, Two).value % 100 == 0
  {
    hide Point;
    var i := Point(s);
    var whole, fraction := s[..i], if i < |s| then s[i + 1..] else [];
    PowersOfTen();
    PadEndParse(fraction, 4);
    if |fraction| == 0 { assert ParseDigits(fraction) == 0; }
    var k := ParseDigits(fraction) * Pow10(2 - |fraction|);
    assert Pow10(4 - |fraction|) == 100 * Pow10(2 - |fraction|);
    assert ParseDigits(PadEnd(fraction, 4)) == 100 * k by { Regroup(ParseDigits(fraction), Pow10(2 - |fraction|)); }
    Remainder(100 * ParseDigits(whole) + k, 0);
  }

  lemma Regroup(x: nat, y: nat)
    ensures x * (100 * y) == 100 * (x * y)
  {
  }

  /** Every printed part of an accepted line reads back as the number it was accepted with; the numbers satisfy the
      line equation, and the extended price is quantity times rate, rounded half up to within half a cent. */
  lemma NormalizedLineReadsBack(input: LineInput, precision: Precision)
    requires Normalize(input, precision).Ok?
    ensures var n := Normalize(input, precision).value;
            var amount, discount, tax := ParseMoney(n.amount, false), ParseMoney(n.discountAmount, true),
              ParseMoney(n.taxAmount, true);
            var quantity, rate := ParseQuantity(n.quantity), ParseUnitRate(n.unitAmount, precision);
            && amount == ParseMoney(input.amount, false) && amount.Some? && discount.Some? && tax.Some?
            && quantity == ParseQuantity(Or(input.quantity, "1")) && quantity.Some?
            && rate == ParseUnitRate(Or(input.unitAmount, input.amount), precision) && rate.Some?
            && discount == ParseMoney(Or(input.discountAmount, "0.00"), true)
            && tax == ParseMoney(Or(input.taxAmount, "0.00"), true)
            && var extended := amount.value + discount.value - tax.value;
            && extended >= discount.value && extended == Extended(quantity.value, rate.value)
            && quantity.value * rate.value - 500000 < extended * 1000000 <= quantity.value * rate.value + 500000
  {
    hide Money, QuantityString, UnitRateString, ParseScaled, DivideRoundedHalfUp, ExactUnitCost, ParseUnitRate;
    var amount := ParseMoney(input.amount, false).value;
    var quantity := ParseQuantity(Or(input.quantity, "1")).value;
    var rate := ParseUnitRate(Or(input.unitAmount, input.amount), precision).value;
    MoneyRoundTrip(amount);
    MoneyRoundTrip(ParseMoney(Or(input.discountAmount, "0.00"), true).value);
    MoneyRoundTrip(ParseMoney(Or(input.taxAmount, "0.00"), true).value);
    QuantityRoundTrip(quantity);
    UnitRateRoundTrip(rate);
    if precision.Two? {
      RateOfPrecisionTwo(Or(input.unitAmount, input.amount));
      UnitRatePrecisionTwoIff(rate);
    }
    HalfUpBounds(quantity * rate, 1000000);
  }

  /** Normalising a normalised line at the same precision changes nothing. */
  lemma NormalizeIdempotent(input: LineInput, precision: Precision)
    requires Normalize(input, precision).Ok?
    ensures Normalize(AsInput(Normalize(input, precision).value), precision) == Normalize(input, precision)
  {
    hide Money, QuantityString, UnitRateString, ParseMoney, ParseQuantity, ParseUnitRate, Extended, ExactUnitCost;
    NormalizedLineReadsBack(input, precision);
  }
}
