/** Cutting a JSON evidence text into bounded pieces (src/attested-settlement-correction.ts). The text is UTF-16 code
    units, read code point by code point; widths are those of UTF-8 (section 3 of RFC 3629). */
module EvidenceChunks {
  import opened JsonText

  const LIMIT := 2000

  /** How many units the first code point has: a pair of surrogates is one code point. */
  function Size(t: Text): (n: nat)
    requires t != []
    ensures 1 <= n <= |t|
  {
    if StartsPair(t) then 2 else 1
  }

  function PairValue(high: Unit, low: Unit): nat
    requires IsHigh(high) && IsLow(low)
  {
    0x10000 + (high - 0xD800) * 0x400 + (low - 0xDC00)
  }

  /** The bytes of the first code point; a surrogate without its partner becomes the replacement character. */
  function Utf8(t: Text): (bytes: seq<nat>)
    requires t != []
    ensures 1 <= |bytes| <= 4
  {
    var u := t[0];
    if StartsPair(t) then
      var c := PairValue(u, t[1]);
      [0xF0 + c / 0x40000, 0x80 + c / 0x1000 % 0x40, 0x80 + c / 0x40 % 0x40, 0x80 + c % 0x40]
    else if u < 0x80 then [u]
    else if u < 0x800 then [0xC0 + u / 0x40, 0x80 + u % 0x40]
    else if IsHigh(u) || IsLow(u) then [0xEF, 0xBF, 0xBD]
    else [0xE0 + u / 0x1000, 0x80 + u / 0x40 % 0x40, 0x80 + u % 0x40]
  }

  function Encode(t: Text): seq<nat> {
    if t == [] then [] else Utf8(t) + Encode(t[Size(t)..])
  }

  function Bytes(t: Text): nat {
    |Encode(t)|
  }

  /** The position does not fall between the halves of a pair. */
  predicate Whole(t: Text, k: nat)
    requires k <= |t|
  {
    !(0 < k < |t| && IsHigh(t[k - 1]) && IsLow(t[k]))
  }

  // ---- encoding joined texts ----

  lemma FirstOfJoined(a: Text, b: Text)
    requires a != [] && (|a| > 1 || Whole(a + b, 1))
    ensures Size(a + b) == Size(a) && Utf8(a + b) == Utf8(a) && (a + b)[Size(a)..] == a[Size(a)..] + b
  {
    assert (a + b)[0] == a[0];
    if |a| > 1 { assert (a + b)[1] == a[1]; }
    assert StartsPair(a + b) == StartsPair(a);
  }

  lemma WholeAfterFirst(a: Text, b: Text)
    requires a != []
    ensures Whole(a[Size(a)..] + b, |a| - Size(a)) || Size(a) < |a|
    ensures Size(a) < |a| ==> Whole(a[Size(a)..] + b, |a| - Size(a)) == Whole(a + b, |a|)
  {
    if Size(a) < |a| {
      var rest := a[Size(a)..] + b;
      assert rest[|a| - Size(a) - 1] == (a + b)[|a| - 1];
      if b != [] { assert rest[|a| - Size(a)] == (a + b)[|a|] == b[0]; }
    }
  }

  /** Joining at a whole position joins the encodings. */
  lemma {:induction false} EncodeJoined(a: Text, b: Text)
    requires Whole(a + b, |a|)
    ensures Encode(a + b) == Encode(a) + Encode(b)
    decreases |a|
  {
    hide Utf8, Encode;
    if a == [] {
      assert a + b == b;
      NothingEncoded();
    } else {
      FirstOfJoined(a, b);
      WholeAfterFirst(a, b);
      EncodeJoined(a[Size(a)..], b);
      EncodeStep(a);
      EncodeStep(a + b);
    }
  }

  lemma EncodeStep(t: Text)
    requires t != []
    ensures Encode(t) == Utf8(t) + Encode(t[Size(t)..])
  {
  }

  lemma FirstBytes(t: Text)
    requires t != []
    ensures Bytes(t) == |Utf8(t)| + Bytes(t[Size(t)..]) && Bytes([]) == 0
    ensures |Utf8(t)| == if StartsPair(t) then 4 else if IsHigh(t[0]) || IsLow(t[0]) then 3 else |Utf8(t)|
  {
  }

  /** Joining two halves of a pair takes two bytes less than their replacement characters. */
  lemma {:induction false} HalvesJoined(a: Text, b: Text)
    requires !Whole(a + b, |a|)
    ensures Bytes(a) + Bytes(b) == Bytes(a + b) + 2
    decreases |a|
  {
    if |a| == 1 {
      var t := a + b;
      assert t[0] == a[0] && t[1] == b[0] && StartsPair(t);
      assert t[Size(t)..] == b[Size(b)..] && a[Size(a)..] == [];
      FirstBytes(a);
      FirstBytes(b);
      FirstBytes(t);
    } else {
      FirstOfJoined(a, b);
      LastHighIsAlone(a, b);
      WholeAfterFirst(a, b);
      HalvesJoined(a[Size(a)..], b);
    }
  }

  lemma LastHighIsAlone(a: Text, b: Text)
    requires |a| > 1 && !Whole(a + b, |a|)
    ensures Size(a) < |a|
  {
    assert (a + b)[|a| - 1] == a[|a| - 1];
  }

  // ---- pieces ----

  function Joined(pieces: seq<Text>): Text {
    if pieces == [] then [] else pieces[0] + Joined(pieces[1..])
  }

  function JoinedBytes(pieces: seq<Text>): seq<nat> {
    if pieces == [] then [] else Encode(pieces[0]) + JoinedBytes(pieces[1..])
  }

  /** No piece begins between the halves of a pair of the text. */
  ghost predicate KeepsPairs(pieces: seq<Text>) {
    if pieces == [] then true
    else Whole(Joined(pieces), |pieces[0]|) && KeepsPairs(pieces[1..])
  }

  lemma {:induction false} PiecesTakeNoLess(pieces: seq<Text>)
    ensures |JoinedBytes(pieces)| >= Bytes(Joined(pieces))
    ensures KeepsPairs(pieces) ==> JoinedBytes(pieces) == Encode(Joined(pieces))
    ensures !KeepsPairs(pieces) ==> |JoinedBytes(pieces)| > Bytes(Joined(pieces))
  {
    hide Encode;
    if pieces == [] {
      NothingEncoded();
    } else {
      PiecesTakeNoLess(pieces[1..]);
      var rest := Joined(pieces[1..]);
      if Whole(Joined(pieces), |pieces[0]|) {
        EncodeJoined(pieces[0], rest);
      } else {
        HalvesJoined(pieces[0], rest);
      }
    }
  }

  /** The encoded pieces of a text make up the encoded text exactly when no piece begins within a pair. */
  lemma EncodedPiecesIff(pieces: seq<Text>)
    ensures JoinedBytes(pieces) == Encode(Joined(pieces)) <==> KeepsPairs(pieces)
  {
    PiecesTakeNoLess(pieces);
  }

  // ---- the cut as a function ----

  /** How many units fit from the start into the room left, code point by code point. */
  function Fit(t: Text, room: nat): (n: nat)
    ensures n <= |t|
  {
    if t == [] || |Utf8(t)| > room then 0 else Size(t) + Fit(t[Size(t)..], room - |Utf8(t)|)
  }

  /** Pieces that each take as many code points as fit. */
  function Chunks(t: Text): seq<Text> {
    if t == [] then []
    else
      var n := Fit(t, LIMIT);
      [t[..n]] + Chunks(t[n..])
  }

  lemma WholeInRest(t: Text, k: nat)
    requires t != [] && 0 < k <= |t| && Whole(t, k)
    ensures Size(t) <= k && Whole(t[Size(t)..], k - Size(t))
  {
  }

  lemma PrefixStarts(t: Text, k: nat)
    requires t != [] && Size(t) <= k <= |t|
    ensures t[..k] != [] && Size(t[..k]) == Size(t) && Utf8(t[..k]) == Utf8(t)
            && t[..k][Size(t)..] == t[Size(t)..][..k - Size(t)]
  {
    assert StartsPair(t[..k]) == StartsPair(t);
  }

  /** What fits ends at a whole position, and is the longest prefix within the room that does. */
  lemma {:induction false} FitIsLongest(t: Text, room: nat, k: nat)
    requires k <= |t| && Whole(t, k)
    ensures k <= Fit(t, room) <==> Bytes(t[..k]) <= room
    decreases |t|
  {
    hide Utf8;
    if k > 0 {
      WholeInRest(t, k);
      PrefixStarts(t, k);
      if |Utf8(t)| <= room { FitIsLongest(t[Size(t)..], room - |Utf8(t)|, k - Size(t)); }
    }
  }

  lemma {:induction false} FitIsWhole(t: Text, room: nat)
    ensures Whole(t, Fit(t, room))
    decreases |t|
  {
    hide Utf8;
    if t != [] && |Utf8(t)| <= room {
      FitIsWhole(t[Size(t)..], room - |Utf8(t)|);
      WholeFromRest(t, Fit(t[Size(t)..], room - |Utf8(t)|));
    }
  }

  lemma WholeFromRest(t: Text, k: nat)
    requires t != [] && k <= |t| - Size(t) && Whole(t[Size(t)..], k)
    ensures Whole(t, Size(t) + k)
  {
  }

  // ---- what the pieces are ----

  /** A code point always fits into an empty piece. */
  lemma SomethingFits(t: Text)
    requires t != []
    ensures Fit(t, LIMIT) > 0
  {
    hide Utf8;
  }

  /** The pieces lose nothing, none is empty, none is longer than the limit in UTF-8, and none begins or ends within
      a pair of surrogates. */
  lemma {:induction false} ChunksAreWhole(t: Text)
    ensures Joined(Chunks(t)) == t && KeepsPairs(Chunks(t))
    ensures forall c | c in Chunks(t) :: c != [] && Bytes(c) <= LIMIT
    decreases |t|
  {
    hide Fit, Encode, Whole;
    if t != [] {
      var n := Fit(t, LIMIT);
      SomethingFits(t);
      FitIsWhole(t, LIMIT);
      FitIsLongest(t, LIMIT, n);
      ChunksAreWhole(t[n..]);
      assert Chunks(t)[1..] == Chunks(t[n..]);
      assert t == t[..n] + t[n..];
    }
  }

  /** What fits still fits when a beginning is dropped. */
  lemma SuffixFits(t: Text, k: nat)
    requires k <= Fit(t, LIMIT) && Whole(t, k)
    ensures k + Fit(t[k..], LIMIT) >= Fit(t, LIMIT)
  {
    hide Fit, Encode, Whole;
    var n := Fit(t, LIMIT);
    FitIsWhole(t, LIMIT);
    FitIsLongest(t, LIMIT, n);
    assert t[..n] == t[..k] + t[k..n] && t[k..][..n - k] == t[k..n];
    WholeWithin(t, k, n);
    EncodeJoined(t[..k], t[k..n]);
    FitIsLongest(t[k..], LIMIT, n - k);
  }

  lemma WholeWithin(t: Text, k: nat, n: nat)
    requires k <= n <= |t| && Whole(t, k) && Whole(t, n)
    ensures |t[..k]| == k && Whole(t[..k] + t[k..n], k) && Whole(t[k..], n - k)
  {
    assert t[..k] + t[k..n] == t[..n];
  }

  lemma WholeBeyond(t: Text, n: nat, k: nat)
    requires n <= k <= |t| && Whole(t, k)
    ensures Whole(t[n..], k - n)
  {
  }

  /** Dropping a beginning of whole code points never takes more pieces. */
  lemma {:induction false} SuffixNeedsNoMore(t: Text, k: nat)
    requires k <= |t| && Whole(t, k)
    ensures |Chunks(t[k..])| <= |Chunks(t)|
    decreases |t|
  {
    hide Fit, Encode, Whole;
    if t != [] {
      var n := Fit(t, LIMIT);
      SomethingFits(t);
      FitIsWhole(t, LIMIT);
      if k >= n {
        assert t[k..] == t[n..][k - n..];
        WholeBeyond(t, n, k);
        SuffixNeedsNoMore(t[n..], k - n);
      } else {
        var m := Fit(t[k..], LIMIT);
        SuffixFits(t, k);
        FitIsWhole(t[k..], LIMIT);
        WholeShifted(t, k, m);
        WholeBeyond(t, n, k + m);
        assert t[k..][m..] == t[n..][k + m - n..];
        SuffixNeedsNoMore(t[n..], k + m - n);
      }
    }
  }

  lemma WholeShifted(t: Text, k: nat, m: nat)
    requires k + m <= |t| && Whole(t[k..], m) && (m > 0 || Whole(t, k))
    ensures Whole(t, k + m)
  {
  }

  /** No other way of cutting the text into pieces of whole code points within the limit uses fewer pieces. */
  lemma {:induction false} FewestPieces(t: Text, other: seq<Text>)
    requires Joined(other) == t && KeepsPairs(other) && forall c | c in other :: Bytes(c) <= LIMIT
    ensures |Chunks(t)| <= |other|
    decreases |other|
  {
    hide Fit, Encode, Whole;
    if t != [] {
      SomethingFits(t);
      var first := other[0];
      assert first in other && forall c | c in other[1..] :: c in other;
      var k := |first|;
      assert t[..k] == first && t[k..] == Joined(other[1..]);
      FewestPieces(t[k..], other[1..]);
      FitIsLongest(t, LIMIT, k);
      var n := Fit(t, LIMIT);
      FitIsWhole(t, LIMIT);
      WholeBeyond(t, k, n);
      assert t[n..] == t[k..][n - k..];
      SuffixNeedsNoMore(t[k..], n - k);
    }
  }

  // ---- the loop ----

  /** A piece that the next code point would overfill is exactly the first piece of what is left. */
  lemma PieceCloses(chunk: Text, rest: Text)
    requires chunk != [] && rest != [] && Whole(chunk + rest, |chunk|)
    requires Bytes(chunk) <= LIMIT < Bytes(chunk) + |Utf8(rest)|
    ensures Chunks(chunk + rest) == [chunk] + Chunks(rest)
  {
    hide Fit, Encode, Whole, Utf8;
    var t, m := chunk + rest, Size(rest);
    assert t[..|chunk|] == chunk && t[|chunk|..] == rest && t[..|chunk| + m] == chunk + rest[..m];
    NextIsWhole(rest);
    OneEncoded(rest);
    WholeShifted(t, |chunk|, m);
    JoinedStart(chunk, rest, m);
    EncodeJoined(chunk, rest[..m]);
    FitIsLongest(t, LIMIT, |chunk|);
    FitIsLongest(t, LIMIT, |chunk| + m);
    FitIsWhole(t, LIMIT);
    NothingBetween(chunk, rest, Fit(t, LIMIT));
  }

  /** No whole position lies strictly within the first code point. */
  lemma NothingBetween(chunk: Text, rest: Text, n: nat)
    requires rest != [] && n <= |chunk + rest| && Whole(chunk + rest, n) && |chunk| <= n < |chunk| + Size(rest)
    ensures n == |chunk|
  {
    assert forall i | 0 <= i < |rest| :: (chunk + rest)[|chunk| + i] == rest[i];
  }

  lemma NextIsWhole(rest: Text)
    requires rest != []
    ensures Whole(rest, Size(rest))
  {
  }

  lemma JoinedStart(chunk: Text, rest: Text, m: nat)
    requires 0 < m <= |rest| && Whole(chunk + rest, |chunk|)
    ensures Whole(chunk + rest[..m], |chunk|)
  {
  }

  lemma LastPiece(chunk: Text)
    requires chunk != [] && Bytes(chunk) <= LIMIT
    ensures Chunks(chunk) == [chunk]
  {
    hide Encode, Fit;
    assert chunk[..|chunk|] == chunk;
    FitIsLongest(chunk, LIMIT, |chunk|);
    NothingEncoded();
  }

  /** The next code point joins the piece at a whole position, and leaves one behind. */
  lemma NextJoins(chunk: Text, rest: Text)
    requires rest != [] && Whole(chunk + rest, |chunk|)
    ensures var longer := chunk + rest[..Size(rest)];
            && Bytes(longer) == Bytes(chunk) + |Utf8(rest)|
            && longer + rest[Size(rest)..] == chunk + rest && Whole(chunk + rest, |longer|)
  {
    hide Encode, Utf8, Whole;
    NextIsWhole(rest);
    assert (chunk + rest)[|chunk|..] == rest;
    WholeShifted(chunk + rest, |chunk|, Size(rest));
    JoinedStart(chunk, rest, Size(rest));
    OneEncoded(rest);
    EncodeJoined(chunk, rest[..Size(rest)]);
  }

  method ChunkEvidence(text: Text) returns (chunks: seq<Text>)
    ensures chunks == Chunks(text)
  {
    hide Fit, Utf8, Encode, Chunks, Whole, Size;
    chunks := [];
    var chunk: Text := [];
    var bytes := 0;
    var i := 0;
    NothingEncoded();
    StartIsWhole(text);
    assert [] + text == text && text[0..] == text;
    while i < |text|
      invariant i <= |text| && Whole(chunk + text[i..], |chunk|)
      invariant bytes == Bytes(chunk) <= LIMIT
      invariant chunks + Chunks(chunk + text[i..]) == Chunks(text)
    {
      var rest := text[i..];
      var character := rest[..Size(rest)];
      var size := |Utf8(rest)|;
      if bytes + size > LIMIT {
        NotEmpty(chunk, size);
        PieceCloses(chunk, rest);
        Regrouped(chunks, chunk, Chunks(rest));
        chunks := chunks + [chunk];
        chunk, bytes := [], 0;
        NothingEncoded();
        StartIsWhole(rest);
        assert [] + rest == rest;
      }
      NextJoins(chunk, rest);
      assert rest[Size(rest)..] == text[i + |character|..];
      chunk := chunk + character;
      bytes := bytes + size;
      i := i + |character|;
    }
    assert chunk + text[|text|..] == chunk;
    if chunk != [] {
      LastPiece(chunk);
      chunks := chunks + [chunk];
    } else {
      NothingEncoded();
    }
  }

  lemma StartIsWhole(t: Text)
    ensures Whole([] + t, 0)
  {
  }

  lemma NothingEncoded()
    ensures Encode([]) == [] && Chunks([]) == []
  {
  }

  lemma NotEmpty(chunk: Text, size: nat)
    requires Bytes(chunk) + size > LIMIT && size <= 4
    ensures chunk != []
  {
  }

  lemma OneEncoded(t: Text)
    requires t != []
    ensures Encode(t[..Size(t)]) == Utf8(t)
  {
    hide Utf8;
    PrefixStarts(t, Size(t));
    assert t[..Size(t)][Size(t)..] == [];
  }

  lemma Regrouped(a: seq<Text>, x: Text, b: seq<Text>)
    ensures a + ([x] + b) == (a + [x]) + b
  {
  }
}
