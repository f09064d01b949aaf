/** The bytes of an evidence text read back by an independent reader of UTF-8 (section 3 of RFC 3629). */
module EvidenceBytes {
  import opened JsonText
  import opened EvidenceChunks

  function Paired(high: nat, low: nat): int {
    0x10000 + (high - 0xD800) * 1024 + (low - 0xDC00)
  }

  /** The text's code points; a surrogate without its partner is the replacement character. */
  function CodePoints(t: Text): seq<int> {
    if t == [] then []
    else if |t| >= 2 && 0xD800 <= t[0] <= 0xDBFF && 0xDC00 <= t[1] <= 0xDFFF then
      [Paired(t[0], t[1])] + CodePoints(t[2..])
    else [if 0xD800 <= t[0] <= 0xDFFF then 0xFFFD else t[0]] + CodePoints(t[1..])
  }

  predicate Continues(b: nat) {
    0x80 <= b <= 0xBF
  }

  /** How many bytes the first code point takes by its lead byte; zero for a byte that leads none. */
  function Width(b: nat): nat {
    if b <= 0x7F then 1 else if 0xC2 <= b <= 0xDF then 2 else if 0xE0 <= b <= 0xEF then 3
    else if 0xF0 <= b <= 0xF4 then 4 else 0
  }

  /** The first code point of some bytes: well formed, in its shortest form, and no surrogate. */
  predicate Starts(bytes: seq<nat>, point: int, width: nat) {
    && width != 0 && width <= |bytes| && Width(bytes[0]) == width
    && (forall i | 1 <= i < width :: Continues(bytes[i]))
    && match width
       case 1 => point == bytes[0]
       case 2 => point == (bytes[0] - 0xC0) * 64 + (bytes[1] - 0x80)
       case 3 => point == ((bytes[0] - 0xE0) * 64 + (bytes[1] - 0x80)) * 64 + (bytes[2] - 0x80) >= 0x800
                 && !(0xD800 <= point <= 0xDFFF)
       case 4 => 0x10000 <= point == (((bytes[0] - 0xF0) * 64 + (bytes[1] - 0x80)) * 64 + (bytes[2] - 0x80)) * 64
                                     + (bytes[3] - 0x80) <= 0x10FFFF
       case _ => false
  }

  /** The bytes are those of exactly these code points. */
  predicate Spells(bytes: seq<nat>, points: seq<int>)
    decreases points
  {
    if points == [] then bytes == []
    else
      && bytes != [] && 0 < Width(bytes[0]) <= |bytes| && Starts(bytes, points[0], Width(bytes[0]))
      && Spells(bytes[Width(bytes[0])..], points[1..])
  }

  lemma ThreeBytes(u: nat)
    requires 0x800 <= u < 0x10000
    ensures var a, b, c := u / 0x1000, u / 0x40 % 0x40, u % 0x40;
            a < 16 && b < 64 && c < 64 && (a * 64 + b) * 64 + c == u
  {
    assert u / 0x40 / 0x40 == u / 0x1000;
  }

  lemma FourBytes(u: nat)
    requires 0x10000 <= u <= 0x10FFFF
    ensures var a, b, c, d := u / 0x40000, u / 0x1000 % 0x40, u / 0x40 % 0x40, u % 0x40;
            a < 5 && b < 64 && c < 64 && d < 64 && ((a * 64 + b) * 64 + c) * 64 + d == u
  {
    assert u / 0x40 / 0x40 == u / 0x1000 && u / 0x1000 / 0x40 == u / 0x40000;
  }

  lemma PairBytes(t: Text)
    requires StartsPair(t)
    ensures CodePoints(t)[0] == PairValue(t[0], t[1]) && 0x10000 <= PairValue(t[0], t[1]) <= 0x10FFFF
    ensures Width(Utf8(t)[0]) == |Utf8(t)| && Starts(Utf8(t), CodePoints(t)[0], |Utf8(t)|)
  {
    hide Encode;
    FourBytes(PairValue(t[0], t[1]));
  }

  lemma UnitBytes(t: Text)
    requires t != [] && !StartsPair(t)
    ensures CodePoints(t)[0] == if 0xD800 <= t[0] <= 0xDFFF then 0xFFFD else t[0]
    ensures Width(Utf8(t)[0]) == |Utf8(t)| && Starts(Utf8(t), CodePoints(t)[0], |Utf8(t)|)
  {
    if t[0] >= 0x800 { ThreeBytes(t[0]); }
  }

  lemma FirstStarts(t: Text, more: seq<nat>)
    requires t != []
    ensures Width((Utf8(t) + more)[0]) == |Utf8(t)| && Starts(Utf8(t) + more, CodePoints(t)[0], |Utf8(t)|)
    ensures CodePoints(t) == [CodePoints(t)[0]] + CodePoints(t[Size(t)..])
  {
    var bytes := Utf8(t) + more;
    if StartsPair(t) { PairBytes(t); } else { UnitBytes(t); }
    hide Utf8;
    assert forall i | 0 <= i < |Utf8(t)| :: bytes[i] == Utf8(t)[i];
  }

  /** The encoded text spells exactly the text's code points. */
  lemma {:induction false} EncodedSpells(t: Text)
    ensures Spells(Encode(t), CodePoints(t))
    decreases |t|
  {
    if t != [] {
      EncodedSpells(t[Size(t)..]);
      var rest := Encode(t[Size(t)..]);
      FirstStarts(t, rest);
      EncodeStep(t);
      assert (Utf8(t) + rest)[|Utf8(t)|..] == rest;
      assert CodePoints(t)[1..] == CodePoints(t[Size(t)..]);
    }
  }

  /** Bytes spell at most one sequence of code points. */
  lemma {:induction false} SpellingIsUnique(bytes: seq<nat>, p: seq<int>, q: seq<int>)
    requires Spells(bytes, p) && Spells(bytes, q)
    ensures p == q
    decreases |p|
  {
    if p != [] && q != [] { SpellingIsUnique(bytes[Width(bytes[0])..], p[1..], q[1..]); }
  }
}
