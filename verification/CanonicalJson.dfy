/** The canonical printing of JSON payloads that command checksums are taken of: objects print their members in
    collation order of their keys (src/financial-lifecycle.ts). */
module CanonicalJson {
  import opened Wrappers
  import opened Orders
  import opened JsonText

  /** A number is the token that JSON.stringify writes for it. */
  datatype Json =
    | Null
    | Bool(value: bool)
    | Number(token: Text)
    | Str(text: Text)
    | Arr(items: seq<Json>)
    | Obj(members: seq<Member>)

  datatype Member = Member(key: Text, value: Json)

  /** The comparison of two keys by the locale; it may find different keys equal. */
  type Collation = (Text, Text) -> bool

  predicate IsDigit(u: Unit) { 0x30 <= u <= 0x39 }

  const MINUS: Unit := 0x2D
  const COMMA: Unit := 0x2C
  const COLON: Unit := 0x3A
  const OPEN_BRACKET: Unit := 0x5B
  const CLOSE_BRACKET: Unit := 0x5D
  const OPEN_BRACE: Unit := 0x7B
  const CLOSE_BRACE: Unit := 0x7D

  /** A number token starts with a digit or a minus and has digits, signs, points and exponents only. */
  predicate NumberToken(t: Text) {
    && t != [] && (IsDigit(t[0]) || t[0] == MINUS)
    && forall u | u in t :: IsDigit(u) || u in {MINUS, 0x2B, 0x2E, 0x65}
  }

  ghost predicate DistinctKeys(members: seq<Member>) {
    forall i, j | 0 <= i < j < |members| :: members[i].key != members[j].key
  }

  ghost predicate Valid(v: Json) {
    match v
    case Number(token) => NumberToken(token)
    case Arr(items) => forall i | 0 <= i < |items| :: Valid(items[i])
    case Obj(members) => DistinctKeys(members) && forall i | 0 <= i < |members| :: Valid(members[i].value)
    case _ => true
  }

  // ---- printing ----

  /** What an array or an object lists: values with no key, or with one. */
  datatype Part = Part(key: Option<Text>, value: Json)

  function ByKey(le: Collation): (Member, Member) -> bool {
    (a: Member, b: Member) => le(a.key, b.key)
  }

  /** The parts of a value in printing order. */
  function Parts(v: Json, le: Collation): (ps: seq<Part>)
    ensures forall p | p in ps :: p.value < v
  {
    match v
    case Arr(items) => seq(|items|, i requires 0 <= i < |items| => Part(None, items[i]))
    case Obj(members) =>
      var sorted := SortBy(members, ByKey(le));
      SameElements(sorted, members);
      assert forall i | 0 <= i < |sorted| :: sorted[i] in sorted && sorted[i] in members;
      seq(|sorted|, i requires 0 <= i < |sorted| => Part(Some(sorted[i].key), sorted[i].value))
    case _ => []
  }

  function Label(key: Option<Text>): Text {
    if key.Some? then Quote(key.value) + [COLON] else []
  }

  function Print(v: Json, le: Collation): Text
    decreases v, 1, 0
  {
    match v
    case Null => [0x6E, 0x75, 0x6C, 0x6C]
    case Bool(true) => [0x74, 0x72, 0x75, 0x65]
    case Bool(false) => [0x66, 0x61, 0x6C, 0x73, 0x65]
    case Number(token) => token
    case Str(text) => Quote(text)
    case Arr(_) => [OPEN_BRACKET] + PrintParts(v, Parts(v, le), le) + [CLOSE_BRACKET]
    case Obj(_) => [OPEN_BRACE] + PrintParts(v, Parts(v, le), le) + [CLOSE_BRACE]
  }

  function PrintPart(ghost v: Json, p: Part, le: Collation): Text
    requires p.value < v
    decreases v, 0, 0
  {
    Label(p.key) + Print(p.value, le)
  }

  /** The parts separated by commas. */
  function PrintParts(ghost v: Json, ps: seq<Part>, le: Collation): Text
    requires forall p | p in ps :: p.value < v
    decreases v, 0, |ps| + 1
  {
    if ps == [] then [] else PrintPart(v, ps[0], le) + PrintMore(v, ps[1..], le)
  }

  function PrintMore(ghost v: Json, ps: seq<Part>, le: Collation): Text
    requires forall p | p in ps :: p.value < v
    decreases v, 0, |ps| + 1
  {
    if ps == [] then [] else [COMMA] + PrintPart(v, ps[0], le) + PrintMore(v, ps[1..], le)
  }

  // ---- equality with objects as unordered maps ----

  function KeySet(members: seq<Member>): set<Text> {
    set m | m in members :: m.key
  }

  ghost predicate Same(v: Json, w: Json) {
    match (v, w)
    case (Null, Null) => true
    case (Bool(a), Bool(b)) => a == b
    case (Number(a), Number(b)) => a == b
    case (Str(a), Str(b)) => a == b
    case (Arr(a), Arr(b)) => |a| == |b| && forall i | 0 <= i < |a| :: Same(a[i], b[i])
    case (Obj(a), Obj(b)) =>
      && KeySet(a) == KeySet(b)
      && forall i, j | 0 <= i < |a| && 0 <= j < |b| && a[i].key == b[j].key :: Same(a[i].value, b[j].value)
    case _ => false
  }
}
