/** A reader of JSON texts after RFC 8259, independent of the printing, and what it reads from printed texts. */
module JsonReading {
  import opened Wrappers
  import opened Orders
  import opened JsonText
  import opened CanonicalJson
  import opened CanonicalJsonLaws
  import opened CanonicalJsonOrder

  // ---- strings (section 7) ----

  datatype Read<T> = Read(value: T, rest: Text)

  function HexValue(u: Unit): Option<nat> {
    if 0x30 <= u <= 0x39 then Some(u - 0x30)
    else if 0x61 <= u <= 0x66 then Some(u - 0x61 + 10)
    else if 0x41 <= u <= 0x46 then Some(u - 0x41 + 10)
    else None
  }

  function ReadHex(t: Text): (r: Option<Unit>)
    requires |t| == 4
  {
    match (HexValue(t[0]), HexValue(t[1]), HexValue(t[2]), HexValue(t[3]))
    case (Some(a), Some(b), Some(c), Some(d)) =>
      var n := ((a * 16 + b) * 16 + c) * 16 + d;
      if n < 0x10000 then Some(n) else None
    case _ => None
  }

  /** What the letter after a backslash stands for. */
  function Unescaped(letter: Unit): Option<Unit> {
    if letter == 0x22 || letter == 0x5C || letter == 0x2F then Some(letter)
    else if letter == 0x62 then Some(0x08)
    else if letter == 0x66 then Some(0x0C)
    else if letter == 0x6E then Some(0x0A)
    else if letter == 0x72 then Some(0x0D)
    else if letter == 0x74 then Some(0x09)
    else None
  }

  /** The first unit inside a string; none at its closing quote, or at a control unit or a malformed escape. */
  function ReadUnit(t: Text): (r: Option<Read<Unit>>)
    ensures r.Some? ==> |r.value.rest| < |t|
  {
    if t == [] || t[0] == 0x22 || t[0] < 0x20 then None
    else if t[0] != 0x5C then Some(Read(t[0], t[1..]))
    else if |t| >= 2 && Unescaped(t[1]).Some? then Some(Read(Unescaped(t[1]).value, t[2..]))
    else if |t| >= 6 && t[1] == 0x75 && ReadHex(t[2..6]).Some? then Some(Read(ReadHex(t[2..6]).value, t[6..]))
    else None
  }

  /** The rest of a string whose opening quote has been read. */
  function ReadString(t: Text): (r: Option<Read<Text>>)
    ensures r.Some? ==> |r.value.rest| < |t|
    decreases |t|
  {
    if t != [] && t[0] == 0x22 then Some(Read([], t[1..]))
    else match ReadUnit(t)
      case None => None
      case Some(first) =>
        match ReadString(first.rest)
        case None => None
        case Some(more) => Some(Read([first.value] + more.value, more.rest))
  }

  lemma HexReads(u: Unit)
    ensures ReadHex(Hex(u)) == Some(u)
  {
    var h := Hex(u);
    HexDigitReads(u / 16 / 16 / 16);
    HexDigitReads(u / 16 / 16 % 16);
    HexDigitReads(u / 16 % 16);
    HexDigitReads(u % 16);
  }

  lemma HexDigitReads(d: nat)
    requires d < 16
    ensures HexValue(HexDigit(d)) == Some(d)
  {
  }

  /** An escaped unit reads back. */
  lemma EscapeReads(u: Unit, rest: Text)
    ensures ReadUnit(EscapeUnit(u) + rest) == Some(Read(u, rest))
  {
    var t := EscapeUnit(u) + rest;
    if ShortEscape(u) != 0 {
      assert t[0] == 0x5C && t[1] == ShortEscape(u) && t[2..] == rest;
    } else if u < 0x20 || 0xD800 <= u < 0xE000 {
      hide Hex, ReadHex;
      assert t[0] == 0x5C && t[1] == 0x75 && t[2..6] == Hex(u) && t[6..] == rest;
      HexReads(u);
    } else {
      assert t[0] == u && t[1..] == rest;
    }
  }

  lemma UnitReads(first: Text, u: Unit, rest: Text, more: Text)
    requires ReadUnit(first + rest) == Some(Read(u, rest)) && ReadString(rest).Some? && first != [] && first[0] != 0x22
    ensures ReadString(first + rest) == Some(Read([u] + ReadString(rest).value.value, ReadString(rest).value.rest))
  {
    assert (first + rest)[0] == first[0];
  }

  lemma EscapeNotQuote(u: Unit)
    ensures EscapeUnit(u) != [] && EscapeUnit(u)[0] != 0x22
  {
  }

  /** A printed string reads back as its units, pairs and lone surrogates included, and ends at its closing quote. */
  lemma {:induction false} StringReads(s: Text, rest: Text)
    ensures ReadString(Escaped(s) + ([0x22] + rest)) == Some(Read(s, rest))
    decreases |s|
  {
    hide EscapeUnit, ReadUnit, ReadString, Escaped;
    var tail := [0x22] + rest;
    if s == [] {
      EmptyReads(rest);
    } else {
      StringReads(s[FirstSize(s)..], rest);
      ChunkReads(s, Escaped(s[FirstSize(s)..]) + tail);
      EscapedSplits(s);
      Regrouped(FirstChunk(s), Escaped(s[FirstSize(s)..]), tail);
      assert s == s[..FirstSize(s)] + s[FirstSize(s)..];
    }
  }

  lemma EmptyReads(rest: Text)
    ensures ReadString(Escaped([]) + ([0x22] + rest)) == Some(Read([], rest))
  {
    var tail := [0x22] + rest;
    assert Escaped([]) + tail == tail && tail[0] == 0x22 && tail[1..] == rest;
  }

  /** The first chunk, a raw pair or one escaped unit, reads as the units it stands for. */
  lemma ChunkReads(s: Text, more: Text)
    requires s != [] && ReadString(more).Some?
    ensures var r := ReadString(more).value;
            ReadString(FirstChunk(s) + more) == Some(Read(s[..FirstSize(s)] + r.value, r.rest))
  {
    hide EscapeUnit, ReadUnit, ReadString;
    var r := ReadString(more).value;
    if StartsPair(s) {
      RawReads(s[1], more);
      UnitReads([s[1]], s[1], more, more);
      RawReads(s[0], [s[1]] + more);
      UnitReads([s[0]], s[0], [s[1]] + more, more);
      assert FirstChunk(s) + more == [s[0]] + ([s[1]] + more);
      assert s[..2] + r.value == [s[0]] + ([s[1]] + r.value);
    } else {
      EscapeReads(s[0], more);
      EscapeNotQuote(s[0]);
      UnitReads(EscapeUnit(s[0]), s[0], more, more);
      assert s[..1] == [s[0]];
    }
  }

  lemma RawReads(u: Unit, rest: Text)
    requires u >= 0x20 && u != 0x22 && u != 0x5C
    ensures ReadUnit([u] + rest) == Some(Read(u, rest))
  {
    assert ([u] + rest)[1..] == rest;
  }

  /** Only quotes, backslashes, control units and lone surrogates are escaped, the seven with a letter by that letter
      and the others by four lower-case hexadecimal digits. */
  lemma EscapeForm(u: Unit)
    ensures EscapeUnit(u) == [u] <==> u >= 0x20 && u != 0x22 && u != 0x5C && !(0xD800 <= u <= 0xDFFF)
    ensures |EscapeUnit(u)| == 2 <==> u in {0x08, 0x09, 0x0A, 0x0C, 0x0D, 0x22, 0x5C}
    ensures |EscapeUnit(u)| > 2 ==>
              |EscapeUnit(u)| == 6 && forall i | 2 <= i < 6 ::
                0x30 <= EscapeUnit(u)[i] <= 0x39 || 0x61 <= EscapeUnit(u)[i] <= 0x66
  {
  }

  // ---- values (sections 3 to 6) ----

  predicate NumberUnit(u: Unit) {
    0x30 <= u <= 0x39 || u == 0x2B || u == 0x2D || u == 0x2E || u == 0x65 || u == 0x45
  }

  /** The longest prefix of units that numbers are made of. */
  function NumberRun(t: Text): (n: nat)
    ensures n <= |t|
  {
    if t == [] || !NumberUnit(t[0]) then 0 else 1 + NumberRun(t[1..])
  }

  function ReadLiteral(t: Text, word: Text, v: Json): (r: Option<Read<Json>>)
    ensures r.Some? ==> |r.value.rest| <= |t| && (word != [] ==> |r.value.rest| < |t|)
  {
    if |word| <= |t| && t[..|word|] == word then Some(Read(v, t[|word|..])) else None
  }

  function ReadValue(t: Text): (r: Option<Read<Json>>)
    ensures r.Some? ==> |r.value.rest| < |t|
    decreases |t|, 0
  {
    if t == [] then None
    else if t[0] == 0x6E then ReadLiteral(t, [0x6E, 0x75, 0x6C, 0x6C], Null)
    else if t[0] == 0x74 then ReadLiteral(t, [0x74, 0x72, 0x75, 0x65], Bool(true))
    else if t[0] == 0x66 then ReadLiteral(t, [0x66, 0x61, 0x6C, 0x73, 0x65], Bool(false))
    else if t[0] == 0x22 then
      (match ReadString(t[1..]) case None => None case Some(s) => Some(Read(Str(s.value), s.rest)))
    else if t[0] == 0x5B then
      if |t| > 1 && t[1] == 0x5D then Some(Read(Arr([]), t[2..]))
      else (match ReadItems(t[1..]) case None => None case Some(s) => Some(Read(Arr(s.value), s.rest)))
    else if t[0] == 0x7B then
      if |t| > 1 && t[1] == 0x7D then Some(Read(Obj([]), t[2..]))
      else (match ReadMembers(t[1..]) case None => None case Some(s) => Some(Read(Obj(s.value), s.rest)))
    else
      var n := NumberRun(t);
      if n == 0 then None else Some(Read(Number(t[..n]), t[n..]))
  }

  /** One or more values separated by commas, and the closing bracket. */
  function ReadItems(t: Text): (r: Option<Read<seq<Json>>>)
    ensures r.Some? ==> |r.value.rest| < |t|
    decreases |t|, 1
  {
    match ReadValue(t)
    case None => None
    case Some(v) =>
      if v.rest != [] && v.rest[0] == 0x5D then Some(Read([v.value], v.rest[1..]))
      else if v.rest != [] && v.rest[0] == 0x2C then
        (match ReadItems(v.rest[1..])
         case None => None
         case Some(more) => Some(Read([v.value] + more.value, more.rest)))
      else None
  }

  /** One or more names with values separated by commas, and the closing brace. */
  function ReadMembers(t: Text): (r: Option<Read<seq<Member>>>)
    ensures r.Some? ==> |r.value.rest| < |t|
    decreases |t|, 1
  {
    if t == [] || t[0] != 0x22 then None
    else match ReadString(t[1..])
      case None => None
      case Some(key) =>
        if key.rest == [] || key.rest[0] != 0x3A then None
        else match ReadValue(key.rest[1..])
          case None => None
          case Some(v) =>
            if v.rest != [] && v.rest[0] == 0x7D then Some(Read([Member(key.value, v.value)], v.rest[1..]))
            else if v.rest != [] && v.rest[0] == 0x2C then
              (match ReadMembers(v.rest[1..])
               case None => None
               case Some(more) => Some(Read([Member(key.value, v.value)] + more.value, more.rest)))
            else None
  }

  // ---- the value a canonical text stands for ----

  /** The value with the members of every object in the order of their keys. */
  function Ordered(v: Json, le: Collation): Json
    decreases v, 1
  {
    match v
    case Arr(items) => Arr(seq(|items|, i requires 0 <= i < |items| => Ordered(items[i], le)))
    case Obj(_) =>
      var ps := Parts(v, le);
      Obj(seq(|ps|, i requires 0 <= i < |ps| =>
        Member(if ps[i].key.Some? then ps[i].key.value else [], Ordered(ps[i].value, le))))
    case _ => v
  }

  /** What may follow a value cannot continue a number. */
  lemma EndsNumber(t: Text, x: Text)
    requires NumberToken(t) && (x == [] || x[0] in {0x2C, 0x5D, 0x7D})
    ensures NumberRun(t + x) == |t|
  {
    RunOf(t, x);
  }

  lemma {:induction false} RunOf(t: Text, x: Text)
    requires (forall u | u in t :: NumberUnit(u)) && (x == [] || !NumberUnit(x[0]))
    ensures NumberRun(t + x) == |t|
  {
    if t == [] {
      assert t + x == x;
    } else {
      assert t[0] in t && (t + x)[1..] == t[1..] + x;
      RunOf(t[1..], x);
    }
  }

  predicate Follows(x: Text) {
    x == [] || x[0] == 0x2C || x[0] == 0x5D || x[0] == 0x7D
  }

  function OrderedValues(ps: seq<Part>, le: Collation): (r: seq<Json>)
    ensures |r| == |ps| && forall i | 0 <= i < |ps| :: r[i] == Ordered(ps[i].value, le)
  {
    seq(|ps|, i requires 0 <= i < |ps| => Ordered(ps[i].value, le))
  }

  function OrderedMembers(ps: seq<Part>, le: Collation): (r: seq<Member>)
    ensures |r| == |ps|
    ensures forall i | 0 <= i < |ps| ::
              r[i] == Member(if ps[i].key.Some? then ps[i].key.value else [], Ordered(ps[i].value, le))
  {
    seq(|ps|, i requires 0 <= i < |ps| =>
      Member(if ps[i].key.Some? then ps[i].key.value else [], Ordered(ps[i].value, le)))
  }

  lemma MoreIsComma(v: Json, ps: seq<Part>, le: Collation)
    requires ps != [] && forall p | p in ps :: p.value < v
    ensures PrintMore(v, ps, le) == [0x2C] + PrintParts(v, ps, le)
  {
    hide Print, Label;
    assert [COMMA] + PrintPart(v, ps[0], le) + PrintMore(v, ps[1..], le)
           == [COMMA] + (PrintPart(v, ps[0], le) + PrintMore(v, ps[1..], le));
  }

  lemma PartsStart(v: Json, ps: seq<Part>, le: Collation)
    requires ps != [] && forall p | p in ps :: p.value < v
    ensures PrintParts(v, ps, le)
            == Label(ps[0].key) + Print(ps[0].value, le)
               + (if |ps| == 1 then [] else [0x2C] + PrintParts(v, ps[1..], le))
  {
    hide Print, Label;
    if |ps| > 1 { MoreIsComma(v, ps[1..], le); }
  }

  /** What remains after the first value of a list. */
  ghost function Tail(v: Json, ps: seq<Part>, close: Unit, rest: Text, le: Collation): Text
    requires ps != [] && forall p | p in ps :: p.value < v
  {
    (if |ps| == 1 then [] else [0x2C] + PrintParts(v, ps[1..], le)) + ([close] + rest)
  }

  lemma TailFollows(v: Json, ps: seq<Part>, close: Unit, rest: Text, le: Collation)
    requires ps != [] && (forall p | p in ps :: p.value < v) && (close == 0x5D || close == 0x7D)
    ensures var tail := Tail(v, ps, close, rest, le);
            && Follows(tail) && tail != []
            && (|ps| == 1 ==> tail[0] == close && tail[1..] == rest)
            && (|ps| > 1 ==> tail[0] == 0x2C && tail[1..] == PrintParts(v, ps[1..], le) + ([close] + rest))
            && PrintParts(v, ps, le) + ([close] + rest) == Label(ps[0].key) + (Print(ps[0].value, le) + tail)
  {
    hide Print, Label, PrintParts;
    PartsStart(v, ps, le);
    var tail := Tail(v, ps, close, rest, le);
    if |ps| == 1 {
      assert tail == [close] + rest;
    } else {
      assert tail == [0x2C] + (PrintParts(v, ps[1..], le) + ([close] + rest));
    }
    Joined(Label(ps[0].key), Print(ps[0].value, le),
           if |ps| == 1 then [] else [0x2C] + PrintParts(v, ps[1..], le), [close] + rest);
  }

  lemma Joined(a: Text, b: Text, c: Text, d: Text)
    ensures ((a + b) + c) + d == a + (b + (c + d))
  {
  }

  lemma {:induction false} ItemsRead(v: Json, ps: seq<Part>, le: Collation, rest: Text)
    requires ps != [] && forall p | p in ps :: p.value < v && Valid(p.value) && p.key.None?
    ensures ReadItems(PrintParts(v, ps, le) + ([0x5D] + rest)) == Some(Read(OrderedValues(ps, le), rest))
    decreases v, 0, |ps|
  {
    hide PrintParts, Print, Ordered, ReadValue, Follows, Tail, Valid;
    var tail := Tail(v, ps, 0x5D, rest, le);
    TailFollows(v, ps, 0x5D, rest, le);
    assert ps[0] in ps && Label(ps[0].key) + (Print(ps[0].value, le) + tail) == Print(ps[0].value, le) + tail;
    ValueReads(ps[0].value, le, tail);
    if |ps| > 1 {
      ItemsRead(v, ps[1..], le, rest);
      assert OrderedValues(ps, le) == [Ordered(ps[0].value, le)] + OrderedValues(ps[1..], le);
    } else {
      assert OrderedValues(ps, le) == [Ordered(ps[0].value, le)];
    }
  }

  lemma LabelReads(key: Text, more: Text)
    ensures var t := Label(Some(key)) + more;
            t != [] && t[0] == 0x22 && ReadString(t[1..]) == Some(Read(key, [0x3A] + more))
  {
    hide Escaped, ReadString;
    assert (Label(Some(key)) + more)[1..] == Escaped(key) + ([0x22] + ([0x3A] + more));
    StringReads(key, [0x3A] + more);
  }

  /** One member, when its name and its value read. */
  lemma OneMember(t: Text, key: Text, first: Text, w: Json, tail: Text)
    requires t != [] && t[0] == 0x22 && ReadString(t[1..]) == Some(Read(key, [0x3A] + first))
    requires ReadValue(first) == Some(Read(w, tail)) && tail != []
    ensures tail[0] == 0x7D ==> ReadMembers(t) == Some(Read([Member(key, w)], tail[1..]))
    ensures tail[0] == 0x2C && ReadMembers(tail[1..]).Some? ==>
              var more := ReadMembers(tail[1..]).value;
              ReadMembers(t) == Some(Read([Member(key, w)] + more.value, more.rest))
  {
    hide ReadString, ReadValue;
    assert ([0x3A] + first)[1..] == first;
  }

  lemma {:induction false} MembersRead(v: Json, ps: seq<Part>, le: Collation, rest: Text)
    requires ps != [] && forall p | p in ps :: p.value < v && Valid(p.value) && p.key.Some?
    ensures ReadMembers(PrintParts(v, ps, le) + ([0x7D] + rest)) == Some(Read(OrderedMembers(ps, le), rest))
    decreases v, 0, |ps|
  {
    hide PrintParts, Print, Ordered, OrderedMembers, ReadValue, ReadString, ReadMembers, Follows, Tail, Valid, Label;
    var tail := Tail(v, ps, 0x7D, rest, le);
    TailFollows(v, ps, 0x7D, rest, le);
    assert ps[0] in ps;
    var key, first := ps[0].key.value, Print(ps[0].value, le) + tail;
    LabelReads(key, first);
    ValueReads(ps[0].value, le, tail);
    OneMember(Label(Some(key)) + first, key, first, Ordered(ps[0].value, le), tail);
    FirstMember(ps, le);
    if |ps| > 1 { MembersRead(v, ps[1..], le, rest); }
  }

  lemma FirstMember(ps: seq<Part>, le: Collation)
    requires ps != [] && ps[0].key.Some?
    ensures var m := Member(ps[0].key.value, Ordered(ps[0].value, le));
            OrderedMembers(ps, le) == if |ps| == 1 then [m] else [m] + OrderedMembers(ps[1..], le)
  {
    hide Ordered;
  }

  lemma LeafReads(v: Json, le: Collation, rest: Text)
    requires Valid(v) && Follows(rest) && !v.Arr? && !v.Obj?
    ensures ReadValue(Print(v, le) + rest) == Some(Read(v, rest))
  {
    hide ReadValue, Quote, NumberToken;
    match v
    case Null => WordReads(rest);
    case Bool(_) => WordReads(rest);
    case Str(text) => QuoteReads(text, rest);
    case Number(token) => TokenReads(token, rest);
  }

  lemma WordReads(rest: Text)
    ensures ReadValue([0x6E, 0x75, 0x6C, 0x6C] + rest) == Some(Read(Null, rest))
    ensures ReadValue([0x74, 0x72, 0x75, 0x65] + rest) == Some(Read(Bool(true), rest))
    ensures ReadValue([0x66, 0x61, 0x6C, 0x73, 0x65] + rest) == Some(Read(Bool(false), rest))
  {
    hide ReadString, NumberRun, ReadItems, ReadMembers, ReadLiteral;
    LiteralReads([0x6E, 0x75, 0x6C, 0x6C], rest, Null);
    LiteralReads([0x74, 0x72, 0x75, 0x65], rest, Bool(true));
    LiteralReads([0x66, 0x61, 0x6C, 0x73, 0x65], rest, Bool(false));
  }

  lemma LiteralReads(word: Text, rest: Text, v: Json)
    ensures ReadLiteral(word + rest, word, v) == Some(Read(v, rest))
  {
    assert (word + rest)[..|word|] == word && (word + rest)[|word|..] == rest;
  }

  lemma QuoteReads(text: Text, rest: Text)
    ensures ReadValue(Quote(text) + rest) == Some(Read(Str(text), rest))
  {
    hide Escaped, ReadString, NumberRun, ReadItems, ReadMembers;
    var t := Quote(text) + rest;
    assert t[0] == 0x22 && t[1..] == Escaped(text) + ([0x22] + rest);
    StringReads(text, rest);
  }

  lemma TokenReads(token: Text, rest: Text)
    requires NumberToken(token) && Follows(rest)
    ensures ReadValue(token + rest) == Some(Read(Number(token), rest))
  {
    hide ReadString, NumberRun, ReadItems, ReadMembers;
    var t := token + rest;
    EndsNumber(token, rest);
    assert t[..|token|] == token && t[|token|..] == rest && t[0] == token[0] && token[0] in token;
  }

  lemma ListText(v: Json, le: Collation, rest: Text)
    requires v.Arr? || v.Obj?
    ensures var open, close := if v.Arr? then 0x5B else 0x7B, if v.Arr? then 0x5D else 0x7D;
            Print(v, le) + rest == [open] + (PrintParts(v, Parts(v, le), le) + ([close] + rest))
  {
    hide PrintParts, Parts;
  }

  lemma FirstOfValue(v: Json, le: Collation, more: Text)
    requires Valid(v)
    ensures (Print(v, le) + more) != [] && (Print(v, le) + more)[0] != 0x5D
  {
    hide Print, Valid;
    FirstUnit(v, le);
  }

  lemma PartsFacts(v: Json, le: Collation)
    requires Valid(v)
    ensures forall p | p in Parts(v, le) :: p.value < v && Valid(p.value) && (p.key.Some? <==> v.Obj?)
  {
    hide Parts, Valid;
    ValidParts(v, le);
  }

  /** Every canonical text, followed by whatever may follow a value, reads as its payload with the members in key order,
      and as nothing longer or shorter. */
  lemma {:induction false} ValueReads(v: Json, le: Collation, rest: Text)
    requires Valid(v) && Follows(rest)
    ensures ReadValue(Print(v, le) + rest) == Some(Read(Ordered(v, le), rest))
    decreases v, 1, 0
  {
    if !v.Arr? && !v.Obj? {
      LeafReads(v, le, rest);
      LeafOrdered(v, le);
    } else {
      hide Print, PrintParts, Parts, Valid, Follows, ReadValue, ReadItems, ReadMembers, Label, Ordered;
      PartsFacts(v, le);
      if Parts(v, le) == [] {
        EmptyValueReads(v, le, rest);
      } else if v.Arr? {
        ArrayValueReads(v, le, rest);
      } else {
        ObjectValueReads(v, le, rest);
      }
    }
  }

  lemma EmptyValueReads(v: Json, le: Collation, rest: Text)
    requires (v.Arr? || v.Obj?) && Parts(v, le) == []
    ensures ReadValue(Print(v, le) + rest) == Some(Read(Ordered(v, le), rest))
  {
    hide Print, PrintParts, Parts, ReadValue, Ordered;
    ListText(v, le, rest);
    NoParts(v, le);
    EmptyOrdered(v, le);
    EmptyListReads(rest);
    assert [] + ([0x5D] + rest) == [0x5D] + rest && [] + ([0x7D] + rest) == [0x7D] + rest;
  }

  lemma {:induction false} ArrayValueReads(v: Json, le: Collation, rest: Text)
    requires v.Arr? && Valid(v) && Parts(v, le) != []
    ensures ReadValue(Print(v, le) + rest) == Some(Read(Ordered(v, le), rest))
    decreases v, 0, 1 + |Parts(v, le)|
  {
    hide Print, PrintParts, Parts, Valid, ReadValue, ReadItems, Label, Ordered;
    var ps := Parts(v, le);
    PartsFacts(v, le);
    ListText(v, le, rest);
    OrderedLists(v, le);
    ListStart(v, ps, 0x5D, rest, le);
    ItemsRead(v, ps, le, rest);
    ArrayReads(PrintParts(v, ps, le) + ([0x5D] + rest));
  }

  lemma {:induction false} ObjectValueReads(v: Json, le: Collation, rest: Text)
    requires v.Obj? && Valid(v) && Parts(v, le) != []
    ensures ReadValue(Print(v, le) + rest) == Some(Read(Ordered(v, le), rest))
    decreases v, 0, 1 + |Parts(v, le)|
  {
    hide Print, PrintParts, Parts, Valid, ReadValue, ReadMembers, Label, Ordered;
    var ps := Parts(v, le);
    PartsFacts(v, le);
    ListText(v, le, rest);
    OrderedLists(v, le);
    ListStart(v, ps, 0x7D, rest, le);
    MembersRead(v, ps, le, rest);
    ObjectReads(PrintParts(v, ps, le) + ([0x7D] + rest));
  }

  lemma LeafOrdered(v: Json, le: Collation)
    requires !v.Arr? && !v.Obj?
    ensures Ordered(v, le) == v
  {
  }

  lemma EmptyListReads(rest: Text)
    ensures ReadValue([0x5B] + ([0x5D] + rest)) == Some(Read(Arr([]), rest))
    ensures ReadValue([0x7B] + ([0x7D] + rest)) == Some(Read(Obj([]), rest))
  {
    hide ReadItems, ReadMembers;
    assert ([0x5B] + ([0x5D] + rest))[2..] == rest && ([0x7B] + ([0x7D] + rest))[2..] == rest;
  }

  lemma ArrayReads(inner: Text)
    requires inner != [] && inner[0] != 0x5D && ReadItems(inner).Some?
    ensures ReadValue([0x5B] + inner) == Some(Read(Arr(ReadItems(inner).value.value), ReadItems(inner).value.rest))
  {
    hide ReadItems, ReadMembers;
    assert ([0x5B] + inner)[1..] == inner && ([0x5B] + inner)[1] == inner[0];
  }

  lemma ObjectReads(inner: Text)
    requires inner != [] && inner[0] != 0x7D && ReadMembers(inner).Some?
    ensures ReadValue([0x7B] + inner) == Some(Read(Obj(ReadMembers(inner).value.value), ReadMembers(inner).value.rest))
  {
    hide ReadItems, ReadMembers;
    assert ([0x7B] + inner)[1..] == inner && ([0x7B] + inner)[1] == inner[0];
  }

  lemma NoParts(v: Json, le: Collation)
    ensures PrintParts(v, [], le) == []
  {
  }

  lemma EmptyOrdered(v: Json, le: Collation)
    requires (v.Arr? || v.Obj?) && Parts(v, le) == []
    ensures Ordered(v, le) == if v.Arr? then Arr([]) else Obj([])
  {
  }

  lemma OrderedLists(v: Json, le: Collation)
    requires v.Arr? || v.Obj?
    ensures Ordered(v, le)
            == if v.Arr? then Arr(OrderedValues(Parts(v, le), le)) else Obj(OrderedMembers(Parts(v, le), le))
  {
    if v.Arr? {
      assert Ordered(v, le).items == OrderedValues(Parts(v, le), le);
    } else {
      assert Ordered(v, le).members == OrderedMembers(Parts(v, le), le);
    }
  }

  /** A list with parts does not begin with its closing mark. */
  lemma ListStart(v: Json, ps: seq<Part>, close: Unit, rest: Text, le: Collation)
    requires ps != [] && (forall p | p in ps :: p.value < v && Valid(p.value) && (p.key.Some? <==> v.Obj?))
    requires close == if v.Obj? then 0x7D else 0x5D
    ensures var inner := PrintParts(v, ps, le) + ([close] + rest); inner != [] && inner[0] != close
  {
    hide Print, PrintParts, Valid, Tail;
    TailFollows(v, ps, close, rest, le);
    assert ps[0] in ps;
    if v.Obj? {
      LabelReads(ps[0].key.value, Print(ps[0].value, le) + Tail(v, ps, close, rest, le));
    } else {
      FirstOfValue(ps[0].value, le, Tail(v, ps, close, rest, le));
    }
  }

  // ---- the ordered value is the payload ----

  /** The members of every object are in the order of their keys. */
  ghost predicate InKeyOrder(v: Json, le: Collation) {
    match v
    case Arr(items) => forall i | 0 <= i < |items| :: InKeyOrder(items[i], le)
    case Obj(members) =>
      && (forall i, j | 0 <= i < j < |members| :: le(members[i].key, members[j].key))
      && forall i | 0 <= i < |members| :: InKeyOrder(members[i].value, le)
    case _ => true
  }

  lemma ObjectParts(members: seq<Member>, le: Collation)
    requires TotalPreorder(le) && DistinctKeys(members)
    ensures var ps := Parts(Obj(members), le);
            && (forall p | p in ps :: p.key.Some? && Member(p.key.value, p.value) in members)
            && (forall i | 0 <= i < |ps| :: ps[i] in ps && ps[i].key.Some?)
            && (forall m | m in members :: exists i :: 0 <= i < |ps| && ps[i] == Part(Some(m.key), m.value))
            && (forall i, j | 0 <= i < j < |ps| :: le(ps[i].key.value, ps[j].key.value))
  {
    hide SortBy, TotalPreorder;
    var s := SortBy(members, ByKey(le));
    SortedMembers(members, le);
    var ps := Parts(Obj(members), le);
    assert forall i | 0 <= i < |ps| :: ps[i] == Part(Some(s[i].key), s[i].value) && s[i] in s;
    assert forall i | 0 <= i < |s| :: KeysOf(s)[i] == s[i].key;
    forall m | m in members ensures exists i :: 0 <= i < |ps| && ps[i] == Part(Some(m.key), m.value) {
      assert m in s;
      var i :| 0 <= i < |s| && s[i] == m;
      assert ps[i] == Part(Some(m.key), m.value);
    }
  }

  /** The value read from a canonical text is the payload, objects as unordered maps, with every object's members in key
      order: so a text's objects list all of their members, once, by increasing keys. */
  lemma {:induction false} OrderedIsSame(v: Json, le: Collation)
    requires TotalPreorder(le) && Valid(v)
    ensures Same(v, Ordered(v, le)) && InKeyOrder(Ordered(v, le), le)
    decreases v, 1
  {
    hide TotalPreorder, Parts;
    match v
    case Arr(items) =>
      forall i | 0 <= i < |items|
        ensures Same(items[i], Ordered(items[i], le)) && InKeyOrder(Ordered(items[i], le), le)
      {
        OrderedIsSame(items[i], le);
      }
    case Obj(members) =>
      ObjectIsSame(v, le);
    case _ =>
  }

  lemma {:induction false} ObjectIsSame(v: Json, le: Collation)
    requires TotalPreorder(le) && Valid(v) && v.Obj?
    ensures Same(v, Ordered(v, le)) && InKeyOrder(Ordered(v, le), le)
    decreases v, 0
  {
    hide TotalPreorder, Parts, Same, InKeyOrder, Ordered;
    var members, ps := v.members, Parts(v, le);
    var ordered := OrderedMembers(ps, le);
    OrderedLists(v, le);
    ObjectParts(members, le);
    forall i | 0 <= i < |ps|
      ensures ordered[i].key == ps[i].key.value && Same(ps[i].value, ordered[i].value)
              && InKeyOrder(ordered[i].value, le)
    {
      assert ps[i] in ps;
      PartValid(v, ps[i]);
      OrderedIsSame(ps[i].value, le);
    }
    ObjectSame(members, ps, ordered);
    ObjectInOrder(ordered, le);
  }

  lemma PartValid(v: Json, p: Part)
    requires Valid(v) && v.Obj? && p.key.Some? && Member(p.key.value, p.value) in v.members
    ensures Valid(p.value) && p.value < v
  {
    var i :| 0 <= i < |v.members| && v.members[i] == Member(p.key.value, p.value);
  }

  lemma ObjectSame(members: seq<Member>, ps: seq<Part>, ordered: seq<Member>)
    requires DistinctKeys(members) && |ordered| == |ps|
    requires forall p | p in ps :: p.key.Some? && Member(p.key.value, p.value) in members
    requires forall i | 0 <= i < |ps| :: ps[i] in ps && ps[i].key.Some?
    requires forall m | m in members :: exists i :: 0 <= i < |ps| && ps[i] == Part(Some(m.key), m.value)
    requires forall i | 0 <= i < |ps| ::
               ordered[i].key == ps[i].key.value && Same(ps[i].value, ordered[i].value)
    ensures Same(Obj(members), Obj(ordered))
  {
    forall k ensures k in KeySet(members) <==> k in KeySet(ordered) {
      if k in KeySet(members) {
        var m :| m in members && m.key == k;
        var i :| 0 <= i < |ps| && ps[i] == Part(Some(m.key), m.value);
        assert ordered[i] in ordered && ordered[i].key == k;
      }
      if k in KeySet(ordered) {
        var o :| o in ordered && o.key == k;
        var i :| 0 <= i < |ordered| && ordered[i] == o;
        assert Member(ps[i].key.value, ps[i].value) in members;
      }
    }
    assert KeySet(members) == KeySet(ordered);
    forall i, j | 0 <= i < |members| && 0 <= j < |ordered| && members[i].key == ordered[j].key
      ensures Same(members[i].value, ordered[j].value)
    {
      var m := Member(ps[j].key.value, ps[j].value);
      var n :| 0 <= n < |members| && members[n] == m;
      assert n == i;
    }
  }

  lemma ObjectInOrder(ordered: seq<Member>, le: Collation)
    requires forall i, j | 0 <= i < j < |ordered| :: le(ordered[i].key, ordered[j].key)
    requires forall i | 0 <= i < |ordered| :: InKeyOrder(ordered[i].value, le)
    ensures InKeyOrder(Obj(ordered), le)
  {
  }

  /** A canonical text as a whole reads as its payload. */
  lemma TextReads(v: Json, le: Collation)
    requires TotalPreorder(le) && Valid(v)
    ensures var r := ReadValue(Print(v, le));
            r.Some? && r.value.rest == [] && Same(v, r.value.value) && InKeyOrder(r.value.value, le)
  {
    hide Print, ReadValue, Same, InKeyOrder, Valid, TotalPreorder, Ordered;
    ValueReads(v, le, []);
    assert Print(v, le) + [] == Print(v, le);
    OrderedIsSame(v, le);
  }
}
