/** Which decimal texts are read, as which numbers, and which lines are accepted (src/commercial-lines.ts). */
module CommercialLinesAccepted {
  import opened Wrappers
  import opened Decimals
  import opened CommercialLines

  // ---- texts ----

  /** Digits, or digits with a point and at most so many digits behind it. */
  ghost predicate Written(s: string, whole: string, fraction: string, most: nat) {
    && AllDigits(whole) && whole != [] && AllDigits(fraction) && |fraction| <= most
    && s == if fraction == [] then whole else whole + "." + fraction
  }

  /** The number written, in units of the given decimal place. */
  function Scaled(whole: string, fraction: string, scale: nat): nat
    requires AllDigits(whole) && AllDigits(fraction) && |fraction| <= scale
  {
    ParseDigits(whole) * Pow10(scale) + ParseDigits(fraction) * Pow10(scale - |fraction|)
  }

  lemma WrittenParses(s: string, whole: string, fraction: string, most: nat, scale: nat)
    requires Written(s, whole, fraction, most) && most <= scale
    ensures ParseScaled(s, most, scale) == Some(Scaled(whole, fraction, scale))
  {
    hide ParseScaled, Pow10, ParseDigits, PadEnd, Point, AllDigits;
    if fraction == [] {
      WholeParses(whole, most, scale);
    } else {
      ScaledParses(whole, fraction, most, scale);
      PadEndParse(fraction, scale);
    }
  }

  lemma WholeParses(whole: string, most: nat, scale: nat)
    requires AllDigits(whole) && whole != []
    ensures ParseScaled(whole, most, scale) == Some(Scaled(whole, [], scale))
  {
    hide Pow10;
    PointOf(whole, "");
    assert whole[..|whole|] == whole;
    ZerosParse(scale);
    assert PadEnd("", scale) == Zeros(scale);
    assert ParseDigits([]) == 0;
  }

  lemma ParsedIsWritten(s: string, most: nat, scale: nat)
    requires ParseScaled(s, most, scale).Some?
    ensures exists whole, fraction :: Written(s, whole, fraction, most)
  {
    hide ParseDigits, Pow10, PadEnd;
    var i := Point(s);
    if i < |s| {
      assert s == s[..i] + "." + s[i + 1..];
      assert Written(s, s[..i], s[i + 1..], most);
    } else {
      assert s[..i] == s;
      assert Written(s, s, [], most);
    }
  }

  /** A text is read exactly when it is written so, and as the number it writes. */
  lemma ReadIffWritten(s: string, most: nat, scale: nat, v: nat)
    requires most <= scale
    ensures ParseScaled(s, most, scale) == Some(v) <==>
              exists whole, fraction :: Written(s, whole, fraction, most) && Scaled(whole, fraction, scale) == v
  {
    hide ParseScaled, Scaled;
    if ParseScaled(s, most, scale).Some? {
      ParsedIsWritten(s, most, scale);
      var whole, fraction :| Written(s, whole, fraction, most);
      WrittenParses(s, whole, fraction, most, scale);
    }
    forall whole, fraction | Written(s, whole, fraction, most)
      ensures ParseScaled(s, most, scale) == Some(Scaled(whole, fraction, scale))
    {
      WrittenParses(s, whole, fraction, most, scale);
    }
  }

  /** The digits are the ten decimal ones, in order. */
  lemma DigitsAreDecimal(d: nat)
    requires d < 10
    ensures Digits(d) == ["0123456789"[d]] && ParseDigits(["0123456789"[d]]) == d
    ensures forall c :: IsDigit(c) <==> c in "0123456789"
  {
    assert ["0123456789"[d]][..0] == [];
  }

  // ---- lines ----

  /** Cents, with two fractional digits at most. */
  ghost predicate Cents(s: string, v: nat) {
    exists whole, fraction :: Written(s, whole, fraction, 2) && Scaled(whole, fraction, 2) == v
  }

  /** Ten-thousandths, with at most so many fractional digits. */
  ghost predicate Parts(s: string, most: nat, v: nat)
    requires most <= 4
  {
    exists whole, fraction :: Written(s, whole, fraction, most) && Scaled(whole, fraction, 4) == v
  }

  /** The numbers that make a line acceptable: quantity times rate, rounded half up to cents, less a discount within it
      and plus the tax, is the amount. */
  ghost predicate Adds(quantity: nat, rate: nat, discount: nat, tax: nat, amount: nat) {
    exists extended: nat ::
      && quantity * rate - 500000 < extended * 1000000 <= quantity * rate + 500000
      && discount <= extended && extended - discount + tax == amount
  }

  ghost predicate Accepts(input: LineInput, precision: Precision, quantity: nat, rate: nat, discount: nat, tax: nat,
                          amount: nat)
  {
    && (input.quantity.Some? <==> input.unitAmount.Some?)
    && Cents(input.amount, amount) && amount > 0
    && Parts(if input.quantity.Some? then input.quantity.value else "1", 4, quantity) && quantity > 0
    && Parts(if input.unitAmount.Some? then input.unitAmount.value else input.amount,
             if precision.Two? then 2 else 4, rate)
    && Cents(if input.discountAmount.Some? then input.discountAmount.value else "0.00", discount)
    && Cents(if input.taxAmount.Some? then input.taxAmount.value else "0.00", tax)
    && (input.unitCost.Some? ==> exists whole, fraction :: Written(input.unitCost.value, whole, fraction, 6))
    && (input.start.Some? && input.end.Some? ==> input.start.value <= input.end.value)
    && Adds(quantity, rate, discount, tax, amount)
  }

  lemma CentsParse(s: string, v: nat)
    ensures Cents(s, v) <==> ParseMoney(s, true) == Some(v)
    ensures Cents(s, v) && v > 0 <==> ParseMoney(s, false) == Some(v)
  {
    hide ParseScaled, Written, Scaled;
    ReadIffWritten(s, 2, 2, v);
  }

  lemma PartsParse(s: string, v: nat)
    ensures Parts(s, 4, v) && v > 0 <==> ParseQuantity(s) == Some(v)
    ensures Parts(s, 4, v) <==> ParseUnitRate(s, Four) == Some(v)
    ensures Parts(s, 2, v) <==> ParseUnitRate(s, Two) == Some(v)
  {
    hide ParseScaled, Written, Scaled;
    ReadIffWritten(s, 4, 4, v);
    ReadIffWritten(s, 2, 4, v);
  }

  lemma CostParses(s: string)
    ensures ExactUnitCost(s) <==> exists whole, fraction :: Written(s, whole, fraction, 6)
  {
    hide ParseScaled, Written, Scaled;
    if ExactUnitCost(s) { ParsedIsWritten(s, 6, 6); }
    forall whole, fraction | Written(s, whole, fraction, 6) ensures ExactUnitCost(s) {
      WrittenParses(s, whole, fraction, 6, 6);
    }
  }

  lemma HalfUpIsUnique(p: nat, extended: nat)
    ensures p - 500000 < extended * 1000000 <= p + 500000 <==> extended == DivideRoundedHalfUp(p, 1000000)
  {
    HalfUpBounds(p, 1000000);
  }

  lemma AddsIff(quantity: nat, rate: nat, discount: nat, tax: nat, amount: nat)
    ensures Adds(quantity, rate, discount, tax, amount) <==>
              var extended := Extended(quantity, rate);
              discount <= extended && extended - discount + tax == amount
  {
    hide DivideRoundedHalfUp;
    var p := quantity * rate;
    HalfUpIsUnique(p, Extended(quantity, rate));
    if Adds(quantity, rate, discount, tax, amount) {
      var extended: nat :| p - 500000 < extended * 1000000 <= p + 500000
                           && discount <= extended && extended - discount + tax == amount;
      HalfUpIsUnique(p, extended);
    }
  }

  /** A line is accepted exactly when its texts write numbers that add up and its service period is in order, and is
      returned with the same numbers, in the texts of the printers, and with its unit cost and period as they were. */
  lemma NormalizesTo(input: LineInput, precision: Precision, quantity: nat, rate: nat, discount: nat, tax: nat,
                      amount: nat)
    ensures Accepts(input, precision, quantity, rate, discount, tax, amount) ==>
              Normalize(input, precision)
              == Ok(NormalizedLine(Money(amount), QuantityString(quantity), UnitRateString(rate), input.unitCost,
                                   Money(discount), Money(tax), input.start, input.end))
  {
    hide Cents, Parts, Adds, ParseMoney, ParseQuantity, ParseUnitRate, Extended, ExactUnitCost, Written, Money,
      QuantityString, UnitRateString;
    CentsParse(input.amount, amount);
    PartsParse(Or(input.quantity, "1"), quantity);
    PartsParse(Or(input.unitAmount, input.amount), rate);
    CentsParse(Or(input.discountAmount, "0.00"), discount);
    CentsParse(Or(input.taxAmount, "0.00"), tax);
    if input.unitCost.Some? { CostParses(input.unitCost.value); }
    AddsIff(quantity, rate, discount, tax, amount);
  }

  lemma AcceptedNumbers(input: LineInput, precision: Precision)
    requires Normalize(input, precision).Ok?
    ensures exists quantity, rate, discount, tax, amount ::
              Accepts(input, precision, quantity, rate, discount, tax, amount)
  {
    hide Cents, Parts, Adds, ParseMoney, ParseQuantity, ParseUnitRate, Extended, ExactUnitCost, Written, Money,
      QuantityString, UnitRateString;
    var amount := ParseMoney(input.amount, false).value;
    var quantity := ParseQuantity(Or(input.quantity, "1")).value;
    var rate := ParseUnitRate(Or(input.unitAmount, input.amount), precision).value;
    var discount := ParseMoney(Or(input.discountAmount, "0.00"), true).value;
    var tax := ParseMoney(Or(input.taxAmount, "0.00"), true).value;
    CentsParse(input.amount, amount);
    PartsParse(Or(input.quantity, "1"), quantity);
    PartsParse(Or(input.unitAmount, input.amount), rate);
    CentsParse(Or(input.discountAmount, "0.00"), discount);
    CentsParse(Or(input.taxAmount, "0.00"), tax);
    if input.unitCost.Some? { CostParses(input.unitCost.value); }
    AddsIff(quantity, rate, discount, tax, amount);
    assert Accepts(input, precision, quantity, rate, discount, tax, amount);
  }

  /** The exact condition: a line is accepted if and only if such numbers exist. */
  lemma AcceptedIff(input: LineInput, precision: Precision)
    ensures Normalize(input, precision).Ok? <==>
              exists quantity, rate, discount, tax, amount ::
                Accepts(input, precision, quantity, rate, discount, tax, amount)
  {
    hide Accepts, Normalize;
    if Normalize(input, precision).Ok? { AcceptedNumbers(input, precision); }
    forall quantity, rate, discount, tax, amount | Accepts(input, precision, quantity, rate, discount, tax, amount)
      ensures Normalize(input, precision).Ok?
    {
      NormalizesTo(input, precision, quantity, rate, discount, tax, amount);
    }
  }
}
