/** What equal canonical texts mean, and when printing is independent of member order. */
module CanonicalJsonLaws {
  import opened Wrappers
  import opened Orders
  import opened JsonText
  import opened CanonicalJson

  // ---- texts determine values ----

  /** What may follow a value: nothing, or a separator or closing mark. */
  ghost predicate Ends(x: Text) {
    x == [] || x[0] in {COMMA, CLOSE_BRACKET, CLOSE_BRACE}
  }

  /** The first unit tells the kind of value, and no value begins with a separator or closing mark. */
  lemma FirstUnit(v: Json, le: Collation)
    requires Valid(v)
    ensures var t := Print(v, le);
            && t != [] && t[0] !in {COMMA, CLOSE_BRACKET, CLOSE_BRACE}
            && (v.Null? <==> t[0] == 0x6E)
            && (v == Bool(true) <==> t[0] == 0x74)
            && (v == Bool(false) <==> t[0] == 0x66)
            && (v.Number? <==> IsDigit(t[0]) || t[0] == MINUS)
            && (v.Str? <==> t[0] == QUOTE)
            && (v.Arr? <==> t[0] == OPEN_BRACKET)
            && (v.Obj? <==> t[0] == OPEN_BRACE)
  {
    hide PrintParts, Parts, Escaped;
  }

  lemma TokenPrefixFree(a: Text, b: Text, x: Text, y: Text)
    requires NumberToken(a) && NumberToken(b) && Ends(x) && Ends(y) && a + x == b + y
    ensures a == b && x == y
  {
    assert forall i | 0 <= i < |b| :: (a + x)[i] == b[i] && b[i] in b;
    assert forall i | 0 <= i < |a| :: (b + y)[i] == a[i] && a[i] in a;
    assert forall i | 0 <= i < |x| :: (a + x)[|a| + i] == x[i];
    assert forall i | 0 <= i < |y| :: (b + y)[|b| + i] == y[i];
    assert |a| == |b|;
    assert a == (a + x)[..|a|] && b == (b + y)[..|b|];
    assert x == (a + x)[|a|..] && y == (b + y)[|b|..];
  }

  /** Two part lists with the same labels whose values are the same and print the same. */
  ghost predicate SameParts(ps: seq<Part>, qs: seq<Part>, le: Collation) {
    && |ps| == |qs|
    && forall i | 0 <= i < |ps| ::
         ps[i].key == qs[i].key && Same(ps[i].value, qs[i].value) && Print(ps[i].value, le) == Print(qs[i].value, le)
  }

  ghost predicate PartsValid(v: Json, ps: seq<Part>) {
    && (forall p | p in ps :: p.value < v && Valid(p.value))
    && (forall p | p in ps :: p.key.Some? <==> v.Obj?)
  }

  lemma ValidParts(v: Json, le: Collation)
    requires Valid(v)
    ensures PartsValid(v, Parts(v, le))
  {
    hide SortBy;
    if v.Obj? {
      var sorted := SortBy(v.members, ByKey(le));
      SameElements(sorted, v.members);
      forall i | 0 <= i < |sorted| ensures Valid(sorted[i].value) {
        assert sorted[i] in sorted && sorted[i] in v.members;
        var j :| 0 <= j < |v.members| && v.members[j] == sorted[i];
      }
    }
  }

  /** Printed values are prefix free: followed by what may follow a value, equal texts have the same values. */
  lemma {:induction false} PrintPrefixFree(v: Json, w: Json, x: Text, y: Text, le: Collation)
    requires Valid(v) && Valid(w) && Ends(x) && Ends(y) && Print(v, le) + x == Print(w, le) + y
    ensures Same(v, w) && x == y && Print(v, le) == Print(w, le)
    decreases v, 1, 0
  {
    hide PrintParts, Parts, Same, Escaped, Ends, Valid;
    FirstUnit(v, le);
    FirstUnit(w, le);
    assert (Print(v, le) + x)[0] == Print(v, le)[0] && (Print(w, le) + y)[0] == Print(w, le)[0];
    if v.Arr? || v.Obj? {
      ListPrefixFree(v, w, x, y, le);
    } else {
      LeafPrefixFree(v, w, x, y, le);
    }
    SameRests(Print(v, le), Print(w, le), x, y);
  }

  lemma SameRests(s: Text, t: Text, x: Text, y: Text)
    requires s + x == t + y && x == y
    ensures s == t
  {
    assert |s| == |t|;
    assert s == (s + x)[..|s|] && t == (t + y)[..|t|];
  }

  lemma LeafPrefixFree(v: Json, w: Json, x: Text, y: Text, le: Collation)
    requires Valid(v) && Valid(w) && Ends(x) && Ends(y) && Print(v, le) + x == Print(w, le) + y
    requires !v.Arr? && !v.Obj? && !w.Arr? && !w.Obj? && (v.Null? <==> w.Null?) && (v.Number? <==> w.Number?)
             && (v.Str? <==> w.Str?)
    requires v.Bool? ==> v == w
    ensures Same(v, w) && x == y
  {
    hide PrintParts, Parts, Escaped, Ends;
    if v.Number? {
      TokenPrefixFree(v.token, w.token, x, y);
    } else if v.Str? {
      QuotePrefixFree(v.text, w.text, x, y);
    } else {
      assert v == w;
      var n := |Print(v, le)|;
      assert x == (Print(v, le) + x)[n..] && y == (Print(w, le) + y)[n..];
    }
  }

  lemma {:induction false} ListPrefixFree(v: Json, w: Json, x: Text, y: Text, le: Collation)
    requires Valid(v) && Valid(w) && Ends(x) && Ends(y) && Print(v, le) + x == Print(w, le) + y
    requires (v.Arr? && w.Arr?) || (v.Obj? && w.Obj?)
    ensures Same(v, w) && x == y
    decreases v, 0, 1 + |Parts(v, le)|
  {
    hide PrintParts, Parts, Same, Valid, Ends;
    var close := if v.Arr? then CLOSE_BRACKET else CLOSE_BRACE;
    var a, b := PrintParts(v, Parts(v, le), le), PrintParts(w, Parts(w, le), le);
    var open := Print(v, le)[0];
    assert Print(v, le) + x == [open] + (a + ([close] + x));
    assert Print(w, le) + y == [open] + (b + ([close] + y));
    assert ([open] + (a + ([close] + x)))[1..] == a + ([close] + x);
    assert ([open] + (b + ([close] + y)))[1..] == b + ([close] + y);
    ValidParts(v, le);
    ValidParts(w, le);
    PartsPrefixFree(v, w, Parts(v, le), Parts(w, le), close, x, y, le);
    SamePartsSame(v, w, le);
  }

  lemma {:induction false} PartsPrefixFree(v: Json, w: Json, ps: seq<Part>, qs: seq<Part>, close: Unit, x: Text,
                                           y: Text, le: Collation)
    requires PartsValid(v, ps) && PartsValid(w, qs) && (v.Obj? <==> w.Obj?) && close in {CLOSE_BRACKET, CLOSE_BRACE}
    requires PrintParts(v, ps, le) + ([close] + x) == PrintParts(w, qs, le) + ([close] + y)
    ensures SameParts(ps, qs, le) && x == y
    decreases v, 0, |ps|
  {
    hide Same, Valid, Ends, PrintMore, Print;
    assert [] + ([close] + x) == [close] + x && [] + ([close] + y) == [close] + y;
    if ps == [] || qs == [] {
      if ps != [] { PartStart(v, ps[0], le); Grouped(PrintPart(v, ps[0], le), PrintMore(v, ps[1..], le), [close] + x); }
      if qs != [] { PartStart(w, qs[0], le); Grouped(PrintPart(w, qs[0], le), PrintMore(w, qs[1..], le), [close] + y); }
      assert (PrintParts(v, ps, le) + ([close] + x))[0] == (PrintParts(w, qs, le) + ([close] + y))[0];
      assert ps == [] && qs == [];
      assert ([close] + x)[1..] == x && ([close] + y)[1..] == y;
    } else {
      var a, b := PrintMore(v, ps[1..], le) + ([close] + x), PrintMore(w, qs[1..], le) + ([close] + y);
      Grouped(PrintPart(v, ps[0], le), PrintMore(v, ps[1..], le), [close] + x);
      Grouped(PrintPart(w, qs[0], le), PrintMore(w, qs[1..], le), [close] + y);
      MoreEnds(v, ps[1..], close, x, le);
      MoreEnds(w, qs[1..], close, y, le);
      PartPrefixFree(v, w, ps[0], qs[0], a, b, le);
      MorePrefixFree(v, w, ps[1..], qs[1..], close, x, y, le);
      ConsSameParts(ps, qs, le);
    }
  }

  lemma ConsSameParts(ps: seq<Part>, qs: seq<Part>, le: Collation)
    requires ps != [] && qs != [] && SameParts(ps[1..], qs[1..], le)
    requires ps[0].key == qs[0].key && Same(ps[0].value, qs[0].value)
             && Print(ps[0].value, le) == Print(qs[0].value, le)
    ensures SameParts(ps, qs, le)
  {
    hide Same, Print;
    forall i | 0 <= i < |ps|
      ensures ps[i].key == qs[i].key && Same(ps[i].value, qs[i].value)
              && Print(ps[i].value, le) == Print(qs[i].value, le)
    {
      if i > 0 { assert ps[i] == ps[1..][i - 1] && qs[i] == qs[1..][i - 1]; }
    }
  }

  lemma Grouped(a: Text, b: Text, c: Text)
    ensures (a + b) + c == a + (b + c)
  {
  }

  /** A part does not begin like what may follow one. */
  lemma PartStart(v: Json, p: Part, le: Collation)
    requires p.value < v && Valid(p.value)
    ensures PrintPart(v, p, le) != [] && PrintPart(v, p, le)[0] !in {COMMA, CLOSE_BRACKET, CLOSE_BRACE}
  {
    hide Print;
    FirstUnit(p.value, le);
  }

  lemma MoreEnds(v: Json, ps: seq<Part>, close: Unit, x: Text, le: Collation)
    requires (forall p | p in ps :: p.value < v) && close in {CLOSE_BRACKET, CLOSE_BRACE}
    ensures Ends(PrintMore(v, ps, le) + ([close] + x))
  {
    hide PrintPart;
    if ps == [] { assert [] + ([close] + x) == [close] + x; }
  }

  lemma {:induction false} PartPrefixFree(v: Json, w: Json, p: Part, q: Part, x: Text, y: Text, le: Collation)
    requires p.value < v && q.value < w && Valid(p.value) && Valid(q.value) && (p.key.Some? <==> q.key.Some?)
    requires Ends(x) && Ends(y) && PrintPart(v, p, le) + x == PrintPart(w, q, le) + y
    ensures p.key == q.key && Same(p.value, q.value) && Print(p.value, le) == Print(q.value, le) && x == y
    decreases v, 0, 0
  {
    hide Same, Valid, Ends, Print, Quote;
    var a, b := Print(p.value, le), Print(q.value, le);
    if p.key.Some? {
      assert PrintPart(v, p, le) + x == Quote(p.key.value) + ([COLON] + (a + x));
      assert PrintPart(w, q, le) + y == Quote(q.key.value) + ([COLON] + (b + y));
      QuotePrefixFree(p.key.value, q.key.value, [COLON] + (a + x), [COLON] + (b + y));
      assert ([COLON] + (a + x))[1..] == a + x && ([COLON] + (b + y))[1..] == b + y;
    } else {
      assert [] + a == a && [] + b == b;
    }
    PrintPrefixFree(p.value, q.value, x, y, le);
  }

  lemma {:induction false} MorePrefixFree(v: Json, w: Json, ps: seq<Part>, qs: seq<Part>, close: Unit, x: Text, y: Text,
                                          le: Collation)
    requires PartsValid(v, ps) && PartsValid(w, qs) && (v.Obj? <==> w.Obj?) && close in {CLOSE_BRACKET, CLOSE_BRACE}
    requires PrintMore(v, ps, le) + ([close] + x) == PrintMore(w, qs, le) + ([close] + y)
    ensures SameParts(ps, qs, le) && x == y
    decreases v, 0, |ps|
  {
    hide Same, Valid, Ends, Print, PrintPart;
    if ps != [] { MoreGrouped(v, ps, [close] + x, le); }
    if qs != [] { MoreGrouped(w, qs, [close] + y, le); }
    assert [] + ([close] + x) == [close] + x && [] + ([close] + y) == [close] + y;
    assert (PrintMore(v, ps, le) + ([close] + x))[0] == (PrintMore(w, qs, le) + ([close] + y))[0];
    if ps == [] || qs == [] {
      assert ps == [] && qs == [];
      assert ([close] + x)[1..] == x && ([close] + y)[1..] == y;
    } else {
      var a, b := PrintMore(v, ps[1..], le) + ([close] + x), PrintMore(w, qs[1..], le) + ([close] + y);
      assert ([COMMA] + (PrintPart(v, ps[0], le) + a))[1..] == PrintPart(v, ps[0], le) + a;
      assert ([COMMA] + (PrintPart(w, qs[0], le) + b))[1..] == PrintPart(w, qs[0], le) + b;
      MoreEnds(v, ps[1..], close, x, le);
      MoreEnds(w, qs[1..], close, y, le);
      PartPrefixFree(v, w, ps[0], qs[0], a, b, le);
      MorePrefixFree(v, w, ps[1..], qs[1..], close, x, y, le);
      ConsSameParts(ps, qs, le);
    }
  }

  lemma MoreGrouped(v: Json, ps: seq<Part>, z: Text, le: Collation)
    requires ps != [] && forall p | p in ps :: p.value < v
    ensures PrintMore(v, ps, le) + z == [COMMA] + (PrintPart(v, ps[0], le) + (PrintMore(v, ps[1..], le) + z))
  {
    hide PrintPart;
    var a, b := PrintPart(v, ps[0], le), PrintMore(v, ps[1..], le);
    assert [COMMA] + a + b + z == [COMMA] + (a + (b + z));
  }

  /** Lists with the same parts are the same values. */
  lemma SamePartsSame(v: Json, w: Json, le: Collation)
    requires Valid(v) && Valid(w) && ((v.Arr? && w.Arr?) || (v.Obj? && w.Obj?))
    requires SameParts(Parts(v, le), Parts(w, le), le)
    ensures Same(v, w)
  {
    hide SortBy, Print;
    var ps, qs := Parts(v, le), Parts(w, le);
    if v.Arr? {
      forall i | 0 <= i < |v.items| ensures Same(v.items[i], w.items[i]) {
        assert ps[i].value == v.items[i] && qs[i].value == w.items[i];
      }
    } else {
      SameMembersSame(v.members, w.members, SortBy(v.members, ByKey(le)), SortBy(w.members, ByKey(le)), ps, qs, le);
    }
  }

  lemma SameMembersSame(a: seq<Member>, b: seq<Member>, s: seq<Member>, t: seq<Member>, ps: seq<Part>, qs: seq<Part>,
                        le: Collation)
    requires multiset(s) == multiset(a) && multiset(t) == multiset(b) && DistinctKeys(b)
    requires |ps| == |s| && |qs| == |t| && SameParts(ps, qs, le)
    requires forall i | 0 <= i < |s| :: ps[i] == Part(Some(s[i].key), s[i].value)
    requires forall i | 0 <= i < |t| :: qs[i] == Part(Some(t[i].key), t[i].value)
    ensures Same(Obj(a), Obj(b))
  {
    hide Same, Print, DistinctKeys;
    SameElements(s, a);
    SameElements(t, b);
    forall i | 0 <= i < |s| ensures s[i].key == t[i].key && Same(s[i].value, t[i].value) {
      assert ps[i].key == qs[i].key;
    }
    forall k ensures k in KeySet(a) <==> k in KeySet(b) {
      if k in KeySet(a) {
        var m :| m in a && m.key == k;
        var i :| 0 <= i < |s| && s[i] == m;
        assert t[i] in b;
      }
      if k in KeySet(b) {
        var m :| m in b && m.key == k;
        var i :| 0 <= i < |t| && t[i] == m;
        assert s[i] in a;
      }
    }
    forall i, j | 0 <= i < |a| && 0 <= j < |b| && a[i].key == b[j].key ensures Same(a[i].value, b[j].value) {
      assert a[i] in s;
      var n :| 0 <= n < |s| && s[n] == a[i];
      assert t[n] in b;
      OneMemberPerKey(b, t[n], b[j]);
    }
    ObjectsSame(a, b);
  }

  lemma OneMemberPerKey(members: seq<Member>, m: Member, n: Member)
    requires DistinctKeys(members) && m in members && n in members && m.key == n.key
    ensures m == n
  {
  }

  lemma ObjectsSame(a: seq<Member>, b: seq<Member>)
    requires KeySet(a) == KeySet(b)
    requires forall i, j | 0 <= i < |a| && 0 <= j < |b| && a[i].key == b[j].key :: Same(a[i].value, b[j].value)
    ensures Same(Obj(a), Obj(b))
  {
  }

  /** Two payloads with the same canonical text are equal, with objects read as unordered maps. */
  lemma EqualTextsSame(v: Json, w: Json, le: Collation)
    requires Valid(v) && Valid(w) && Print(v, le) == Print(w, le)
    ensures Same(v, w)
  {
    PrintPrefixFree(v, w, [], [], le);
  }
}
