/** JSON string literals over UTF-16 code units as JSON.stringify writes them (section 7 of RFC 8259): short escapes,
    lower-case hexadecimal escapes for other control units, and escapes for surrogates without their partner. */
module JsonText {

  type Unit = n: nat | n < 0x10000

  type Text = seq<Unit>

  const QUOTE: Unit := 0x22
  const BACKSLASH: Unit := 0x5C
  const LETTER_U: Unit := 0x75

  predicate IsHigh(u: Unit) { 0xD800 <= u < 0xDC00 }

  predicate IsLow(u: Unit) { 0xDC00 <= u < 0xE000 }

  function HexDigit(d: nat): Unit
    requires d < 16
  {
    if d < 10 then 0x30 + d else 0x57 + d
  }

  /** The four hexadecimal digits of a unit. */
  function Hex(u: Unit): (h: Text)
    ensures |h| == 4
  {
    [HexDigit(u / 16 / 16 / 16), HexDigit(u / 16 / 16 % 16), HexDigit(u / 16 % 16), HexDigit(u % 16)]
  }

  /** The letter of a short escape, or zero. */
  function ShortEscape(u: Unit): Unit {
    if u == 0x08 then 0x62
    else if u == 0x09 then 0x74
    else if u == 0x0A then 0x6E
    else if u == 0x0C then 0x66
    else if u == 0x0D then 0x72
    else if u == QUOTE || u == BACKSLASH then u
    else 0
  }

  function EscapeUnit(u: Unit): Text {
    if ShortEscape(u) != 0 then [BACKSLASH, ShortEscape(u)]
    else if u < 0x20 || 0xD800 <= u < 0xE000 then [BACKSLASH, LETTER_U] + Hex(u)
    else [u]
  }

  predicate StartsPair(s: Text) {
    |s| > 1 && IsHigh(s[0]) && IsLow(s[1])
  }

  function Escaped(s: Text): Text {
    if s == [] then []
    else if StartsPair(s) then s[..2] + Escaped(s[2..])
    else EscapeUnit(s[0]) + Escaped(s[1..])
  }

  function Quote(s: Text): Text {
    [QUOTE] + Escaped(s) + [QUOTE]
  }

  lemma HexDigitInjective(c: nat, d: nat)
    requires c < 16 && d < 16 && HexDigit(c) == HexDigit(d)
    ensures c == d
  {
  }

  lemma HexInjective(u: Unit, v: Unit)
    requires Hex(u) == Hex(v)
    ensures u == v
  {
    assert Hex(u)[0] == Hex(v)[0] && Hex(u)[1] == Hex(v)[1] && Hex(u)[2] == Hex(v)[2] && Hex(u)[3] == Hex(v)[3];
    HexDigitInjective(u / 16 / 16 / 16, v / 16 / 16 / 16);
    HexDigitInjective(u / 16 / 16 % 16, v / 16 / 16 % 16);
    HexDigitInjective(u / 16 % 16, v / 16 % 16);
    HexDigitInjective(u % 16, v % 16);
  }

  lemma ShortEscapeInjective(u: Unit, v: Unit)
    requires ShortEscape(u) != 0 && ShortEscape(u) == ShortEscape(v)
    ensures u == v
  {
  }

  /** The text printed for the first unit, or the first pair, and how many units it stands for. */
  function FirstChunk(s: Text): Text
    requires s != []
  {
    if StartsPair(s) then s[..2] else EscapeUnit(s[0])
  }

  function FirstSize(s: Text): nat
    requires s != []
  {
    if StartsPair(s) then 2 else 1
  }

  lemma EscapedSplits(s: Text)
    requires s != []
    ensures Escaped(s) == FirstChunk(s) + Escaped(s[FirstSize(s)..])
  {
  }

  /** Where two texts that begin with chunks agree, the chunks stand for the same units. */
  lemma ChunksAgree(a: Text, b: Text, x: Text, y: Text)
    requires a != [] && b != [] && FirstChunk(a) + x == FirstChunk(b) + y
    ensures FirstSize(a) == FirstSize(b) && a[..FirstSize(a)] == b[..FirstSize(b)] && x == y
  {
    hide Hex, HexDigit, ShortEscape;
    ShortEscapeFacts(a[0]);
    ShortEscapeFacts(b[0]);
    var p, q := FirstChunk(a), FirstChunk(b);
    assert (p + x)[0] == p[0] && (q + y)[0] == q[0];
    if p[0] == BACKSLASH {
      assert (p + x)[1] == p[1] && (q + y)[1] == q[1];
      if p[1] == LETTER_U {
        assert (p + x)[2..6] == Hex(a[0]) && (q + y)[2..6] == Hex(b[0]);
        HexInjective(a[0], b[0]);
      } else {
        ShortEscapeInjective(a[0], b[0]);
      }
    } else if |p| == 2 {
      assert (p + x)[1] == p[1] && (q + y)[1] == q[1];
    }
    assert p == q;
    assert (p + x)[|p|..] == x && (q + y)[|q|..] == y;
  }

  lemma ShortEscapeFacts(u: Unit)
    ensures ShortEscape(u) != LETTER_U
    ensures u == QUOTE || u == BACKSLASH ==> ShortEscape(u) != 0
    ensures IsHigh(u) ==> ShortEscape(u) == 0
  {
  }

  /** No chunk begins with a quote. */
  lemma ChunkNotQuote(s: Text)
    requires s != []
    ensures FirstChunk(s) != [] && FirstChunk(s)[0] != QUOTE
  {
  }

  /** A quoted text ends where it ends: followed by anything, it determines both the units and the rest. */
  lemma {:induction false} EscapedPrefixFree(a: Text, b: Text, x: Text, y: Text)
    requires Escaped(a) + ([QUOTE] + x) == Escaped(b) + ([QUOTE] + y)
    ensures a == b && x == y
    decreases |a|
  {
    hide Escaped, FirstChunk, EscapeUnit;
    if a != [] { EscapedSplits(a); ChunkNotQuote(a); }
    if b != [] { EscapedSplits(b); ChunkNotQuote(b); }
    EscapedEmpty();
    if a == [] || b == [] {
      assert (Escaped(a) + ([QUOTE] + x))[0] == (Escaped(b) + ([QUOTE] + y))[0];
      assert a == b;
      assert [] + ([QUOTE] + x) == [QUOTE] + x && [] + ([QUOTE] + y) == [QUOTE] + y;
      assert ([QUOTE] + x)[1..] == x && ([QUOTE] + y)[1..] == y;
    } else {
      var m, n := FirstSize(a), FirstSize(b);
      Regrouped(FirstChunk(a), Escaped(a[m..]), [QUOTE] + x);
      Regrouped(FirstChunk(b), Escaped(b[n..]), [QUOTE] + y);
      ChunksAgree(a, b, Escaped(a[m..]) + ([QUOTE] + x), Escaped(b[n..]) + ([QUOTE] + y));
      EscapedPrefixFree(a[m..], b[n..], x, y);
      assert a == a[..m] + a[m..] && b == b[..n] + b[n..];
    }
  }

  lemma Regrouped(a: Text, b: Text, c: Text)
    ensures (a + b) + c == a + (b + c)
  {
  }

  lemma EscapedEmpty()
    ensures Escaped([]) == []
  {
  }

  lemma QuotePrefixFree(a: Text, b: Text, x: Text, y: Text)
    requires Quote(a) + x == Quote(b) + y
    ensures a == b && x == y
  {
    hide Escaped;
    assert Quote(a) + x == [QUOTE] + (Escaped(a) + ([QUOTE] + x));
    assert Quote(b) + y == [QUOTE] + (Escaped(b) + ([QUOTE] + y));
    assert ([QUOTE] + (Escaped(a) + ([QUOTE] + x)))[1..] == Escaped(a) + ([QUOTE] + x);
    assert ([QUOTE] + (Escaped(b) + ([QUOTE] + y)))[1..] == Escaped(b) + ([QUOTE] + y);
    EscapedPrefixFree(a, b, x, y);
  }
}
