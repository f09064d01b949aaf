/** Canonical texts of equal payloads: they agree exactly when no object has two keys that collate equal. */
module CanonicalJsonOrder {
  import opened Wrappers
  import opened Orders
  import opened JsonText
  import opened CanonicalJson
  import opened CanonicalJsonLaws

  predicate Ties(le: Collation, a: Text, b: Text) {
    le(a, b) && le(b, a)
  }

  /** No object in the value has two keys that collate equal. */
  ghost predicate TieFree(v: Json, le: Collation) {
    match v
    case Arr(items) => forall i | 0 <= i < |items| :: TieFree(items[i], le)
    case Obj(members) =>
      && (forall i, j | 0 <= i < j < |members| :: !Ties(le, members[i].key, members[j].key))
      && forall i | 0 <= i < |members| :: TieFree(members[i].value, le)
    case _ => true
  }

  // ---- without ties, equal payloads print the same ----

  function KeysOf(members: seq<Member>): seq<Text> {
    seq(|members|, i requires 0 <= i < |members| => members[i].key)
  }

  lemma KeysOfDistinct(members: seq<Member>)
    requires DistinctKeys(members)
    ensures Distinct(KeysOf(members)) && Distinct(members)
    ensures forall k :: k in KeysOf(members) <==> k in KeySet(members)
  {
    forall k ensures k in KeysOf(members) <==> k in KeySet(members) {
      if k in KeysOf(members) {
        var i :| 0 <= i < |members| && KeysOf(members)[i] == k;
        assert members[i] in members;
      }
      if k in KeySet(members) {
        var m :| m in members && m.key == k;
        var i :| 0 <= i < |members| && members[i] == m;
        assert KeysOf(members)[i] == k;
      }
    }
  }

  lemma ByKeyPreorder(le: Collation)
    requires TotalPreorder(le)
    ensures TotalPreorder(ByKey(le))
  {
    forall a, b ensures ByKey(le)(a, b) || ByKey(le)(b, a) {
      assert le(a.key, b.key) || le(b.key, a.key);
    }
    forall a, b, c | ByKey(le)(a, b) && ByKey(le)(b, c) ensures ByKey(le)(a, c) {
      assert le(a.key, b.key) && le(b.key, c.key);
    }
  }

  /** The members in printing order are the same members, sorted, with distinct keys. */
  lemma SortedMembers(members: seq<Member>, le: Collation)
    requires TotalPreorder(le) && DistinctKeys(members)
    ensures var s := SortBy(members, ByKey(le));
            && (forall m :: m in s <==> m in members) && DistinctKeys(s) && KeySet(s) == KeySet(members)
            && Sorted(KeysOf(s), le)
  {
    hide SortBy;
    var s := SortBy(members, ByKey(le));
    SortByPermutes(members, ByKey(le));
    KeysOfDistinct(members);
    ByKeyPreorder(le);
    SortBySorts(members, ByKey(le));
    forall i, j | 0 <= i < j < |s| ensures s[i].key != s[j].key && le(s[i].key, s[j].key) {
      assert s[i] != s[j] && s[i] in members && s[j] in members;
      if s[i].key == s[j].key { OneMemberPerKey(members, s[i], s[j]); }
      assert ByKey(le)(s[i], s[j]);
    }
  }

  lemma SameKeysSameOrder(a: seq<Member>, b: seq<Member>, le: Collation)
    requires TotalPreorder(le) && DistinctKeys(a) && DistinctKeys(b) && KeySet(a) == KeySet(b)
    requires forall i, j | 0 <= i < j < |a| :: !Ties(le, a[i].key, a[j].key)
    ensures KeysOf(SortBy(a, ByKey(le))) == KeysOf(SortBy(b, ByKey(le)))
  {
    hide SortBy, DistinctKeys;
    var s, t := SortBy(a, ByKey(le)), SortBy(b, ByKey(le));
    SortedMembers(a, le);
    SortedMembers(b, le);
    KeysOfDistinct(s);
    KeysOfDistinct(t);
    assert forall i, j | 0 <= i < |a| && 0 <= j < |a| && Ties(le, a[i].key, a[j].key) ::
             Ties(le, a[j].key, a[i].key) && i == j;
    forall x, y | x in KeysOf(s) && y in KeysOf(s) && le(x, y) && le(y, x) ensures x == y {
      var m :| m in a && m.key == x;
      var n :| n in a && n.key == y;
      var i :| 0 <= i < |a| && a[i] == m;
      var j :| 0 <= j < |a| && a[j] == n;
    }
    SortedUnique(KeysOf(s), KeysOf(t), le);
  }

  lemma {:induction false} MoreAgree(v: Json, w: Json, ps: seq<Part>, qs: seq<Part>, le: Collation)
    requires |ps| == |qs| && (forall p | p in ps :: p.value < v) && forall q | q in qs :: q.value < w
    requires forall i | 0 <= i < |ps| :: ps[i].key == qs[i].key && Print(ps[i].value, le) == Print(qs[i].value, le)
    ensures PrintMore(v, ps, le) == PrintMore(w, qs, le)
  {
    hide Print;
    if ps != [] { MoreAgree(v, w, ps[1..], qs[1..], le); }
  }

  lemma PartsAgree(v: Json, w: Json, ps: seq<Part>, qs: seq<Part>, le: Collation)
    requires |ps| == |qs| && (forall p | p in ps :: p.value < v) && forall q | q in qs :: q.value < w
    requires forall i | 0 <= i < |ps| :: ps[i].key == qs[i].key && Print(ps[i].value, le) == Print(qs[i].value, le)
    ensures PrintParts(v, ps, le) == PrintParts(w, qs, le)
  {
    hide Print;
    if ps != [] { MoreAgree(v, w, ps[1..], qs[1..], le); }
  }

  /** Equal payloads, with objects as unordered maps, have the same canonical text unless keys collate equal. */
  lemma {:induction false} SamePrintsSame(v: Json, w: Json, le: Collation)
    requires TotalPreorder(le) && Valid(v) && Valid(w) && TieFree(v, le) && Same(v, w)
    ensures Print(v, le) == Print(w, le)
    decreases v
  {
    hide PrintParts, SortBy;
    if v.Arr? {
      forall i | 0 <= i < |v.items| ensures Print(v.items[i], le) == Print(w.items[i], le) {
        SamePrintsSame(v.items[i], w.items[i], le);
      }
      PartsAgree(v, w, Parts(v, le), Parts(w, le), le);
    } else if v.Obj? {
      SameKeysSameOrder(v.members, w.members, le);
      var s, t := SortBy(v.members, ByKey(le)), SortBy(w.members, ByKey(le));
      SameElements(s, v.members);
      SameElements(t, w.members);
      assert |s| == |KeysOf(s)| == |t|;
      forall i | 0 <= i < |s| ensures s[i].key == t[i].key && Print(s[i].value, le) == Print(t[i].value, le) {
        assert KeysOf(s)[i] == KeysOf(t)[i];
        assert s[i] in v.members && t[i] in w.members;
        var m :| 0 <= m < |v.members| && v.members[m] == s[i];
        var n :| 0 <= n < |w.members| && w.members[n] == t[i];
        SamePrintsSame(v.members[m].value, w.members[n].value, le);
      }
      PartsAgree(v, w, Parts(v, le), Parts(w, le), le);
    }
  }

  // ---- with ties, an equal payload prints differently ----

  lemma {:induction false} SameReflexive(v: Json)
    requires Valid(v)
    ensures Same(v, v)
    decreases v
  {
    if v.Arr? {
      forall i | 0 <= i < |v.items| ensures Same(v.items[i], v.items[i]) { SameReflexive(v.items[i]); }
    } else if v.Obj? {
      forall i, j | 0 <= i < |v.members| && 0 <= j < |v.members| && v.members[i].key == v.members[j].key
        ensures Same(v.members[i].value, v.members[j].value)
      {
        assert i == j;
        SameReflexive(v.members[i].value);
      }
    }
  }

  /** Equal texts list the same labels with equal texts of the values. */
  lemma EqualTextsEqualParts(v: Json, w: Json, le: Collation)
    requires Valid(v) && Valid(w) && Print(v, le) == Print(w, le)
    requires (v.Arr? && w.Arr?) || (v.Obj? && w.Obj?)
    ensures SameParts(Parts(v, le), Parts(w, le), le)
  {
    hide PrintParts, Parts, Same, Valid;
    ValidParts(v, le);
    ValidParts(w, le);
    var close := if v.Arr? then CLOSE_BRACKET else CLOSE_BRACE;
    var a, b := PrintParts(v, Parts(v, le), le), PrintParts(w, Parts(w, le), le);
    assert Print(v, le)[1..] == a + [close] && Print(w, le)[1..] == b + [close];
    assert [close] + [] == [close];
    PartsPrefixFree(v, w, Parts(v, le), Parts(w, le), close, [], [], le);
  }

  /** Another value that is the same, with objects as unordered maps, and prints differently. */
  ghost predicate Ambiguous(v: Json, w: Json, le: Collation) {
    Valid(w) && Same(v, w) && Print(v, le) != Print(w, le)
  }

  lemma ItemAmbiguous(v: Json, i: nat, x: Json, le: Collation) returns (w: Json)
    requires Valid(v) && v.Arr? && i < |v.items| && Ambiguous(v.items[i], x, le)
    ensures Ambiguous(v, w, le)
  {
    hide PrintParts, Print;
    w := Arr(v.items[i := x]);
    forall j | 0 <= j < |v.items| ensures Same(v.items[j], w.items[j]) && Valid(w.items[j]) {
      SameReflexive(v.items[j]);
    }
    assert Parts(v, le)[i].value == v.items[i] && Parts(w, le)[i].value == x;
    if Print(v, le) == Print(w, le) { EqualTextsEqualParts(v, w, le); }
  }

  lemma ReplacedMember(members: seq<Member>, i: nat, x: Json)
    requires Valid(Obj(members)) && i < |members| && Valid(x) && Same(members[i].value, x)
    ensures Valid(Obj(members[i := Member(members[i].key, x)]))
    ensures Same(Obj(members), Obj(members[i := Member(members[i].key, x)]))
  {
    hide Same;
    var changed := members[i := Member(members[i].key, x)];
    ReplacedKeys(members, i, x);
    forall m, n | 0 <= m < |members| && 0 <= n < |changed| && members[m].key == changed[n].key
      ensures Same(members[m].value, changed[n].value)
    {
      assert members[n].key == changed[n].key && m == n;
      SameReflexive(members[m].value);
    }
    ObjectsSame(members, changed);
  }

  lemma ReplacedKeys(members: seq<Member>, i: nat, x: Json)
    requires i < |members|
    ensures var changed := members[i := Member(members[i].key, x)];
            KeySet(changed) == KeySet(members) && forall j | 0 <= j < |members| :: changed[j].key == members[j].key
  {
    var changed := members[i := Member(members[i].key, x)];
    assert forall j | 0 <= j < |members| :: members[j] in members && changed[j] in changed;
    forall k ensures k in KeySet(members) <==> k in KeySet(changed) {
      if k in KeySet(members) { var j :| 0 <= j < |members| && members[j].key == k; assert changed[j] in changed; }
      if k in KeySet(changed) { var j :| 0 <= j < |changed| && changed[j].key == k; assert members[j] in members; }
    }
  }

  lemma MemberAmbiguous(v: Json, i: nat, x: Json, le: Collation) returns (w: Json)
    requires TotalPreorder(le) && Valid(v) && v.Obj? && i < |v.members| && Ambiguous(v.members[i].value, x, le)
    ensures Ambiguous(v, w, le)
  {
    hide PrintParts, Print, SortBy, Same;
    var m, n := v.members[i], Member(v.members[i].key, x);
    w := Obj(v.members[i := n]);
    ReplacedMember(v.members, i, x);
    var s, t := SortBy(v.members, ByKey(le)), SortBy(w.members, ByKey(le));
    SortedMembers(v.members, le);
    SortedMembers(w.members, le);
    assert w.members[i] == n && n in t && m in s;
    var p :| 0 <= p < |s| && s[p] == m;
    assert |t| == |s|;
    assert Parts(v, le)[p] == Part(Some(m.key), m.value) && Parts(w, le)[p] == Part(Some(t[p].key), t[p].value);
    assert t[p] in t;
    if t[p].key == n.key { OneMemberPerKey(t, t[p], n); }
    if Print(v, le) == Print(w, le) { EqualTextsEqualParts(v, w, le); }
  }

  /** Tied keys include two that are next to each other in printing order. */
  lemma NeighboursTie(s: seq<Member>, le: Collation, i: nat, j: nat)
    requires TotalPreorder(le) && Sorted(KeysOf(s), le) && i < j < |s| && Ties(le, s[i].key, s[j].key)
    ensures Ties(le, s[i].key, s[i + 1].key)
  {
    assert KeysOf(s)[i + 1] == s[i + 1].key && KeysOf(s)[j] == s[j].key && KeysOf(s)[i] == s[i].key;
    assert i + 1 == j || le(KeysOf(s)[i + 1], KeysOf(s)[j]);
    assert le(KeysOf(s)[i], KeysOf(s)[i + 1]);
  }

  /** Exchanging two tied neighbours leaves the members sorted. */
  lemma ExchangedSorted(s: seq<Member>, le: Collation, i: nat)
    requires TotalPreorder(le) && Sorted(KeysOf(s), le) && i + 1 < |s| && Ties(le, s[i].key, s[i + 1].key)
    ensures var t := s[i := s[i + 1]][i + 1 := s[i]]; Sorted(t, ByKey(le)) && SortBy(t, ByKey(le)) == t
  {
    var t := s[i := s[i + 1]][i + 1 := s[i]];
    assert forall k | 0 <= k < |s| :: KeysOf(s)[k] == s[k].key;
    forall a, b | 0 <= a < b < |t| ensures ByKey(le)(t[a], t[b]) {
      var x := if a == i then i + 1 else if a == i + 1 then i else a;
      var y := if b == i then i + 1 else if b == i + 1 then i else b;
      assert t[a] == s[x] && t[b] == s[y];
      assert x < y ==> le(KeysOf(s)[x], KeysOf(s)[y]);
      assert x > y ==> x == i + 1 && y == i;
    }
    SortedStays(t, ByKey(le));
  }

  lemma RearrangedSame(members: seq<Member>, t: seq<Member>)
    requires Valid(Obj(members)) && Distinct(t) && forall m :: m in t <==> m in members
    ensures Valid(Obj(t)) && Same(Obj(members), Obj(t))
  {
    hide Same;
    forall i, j | 0 <= i < j < |t| ensures t[i].key != t[j].key {
      assert t[i] in members && t[j] in members;
      if t[i].key == t[j].key { OneMemberPerKey(members, t[i], t[j]); }
    }
    forall i | 0 <= i < |t| ensures Valid(t[i].value) {
      assert t[i] in members;
      var j :| 0 <= j < |members| && members[j] == t[i];
    }
    assert KeySet(t) == KeySet(members);
    forall m, n | 0 <= m < |members| && 0 <= n < |t| && members[m].key == t[n].key
      ensures Same(members[m].value, t[n].value)
    {
      assert t[n] in members;
      OneMemberPerKey(members, members[m], t[n]);
      SameReflexive(members[m].value);
    }
    ObjectsSame(members, t);
  }

  lemma TiedAmbiguous(v: Json, i: nat, j: nat, le: Collation) returns (w: Json)
    requires TotalPreorder(le) && Valid(v) && v.Obj? && i < j < |v.members|
             && Ties(le, v.members[i].key, v.members[j].key)
    ensures Ambiguous(v, w, le)
  {
    hide SortBy, PrintParts, Same, TotalPreorder;
    var s := SortBy(v.members, ByKey(le));
    SortedMembers(v.members, le);
    assert v.members[i] in s && v.members[j] in s;
    var a :| 0 <= a < |s| && s[a] == v.members[i];
    var b :| 0 <= b < |s| && s[b] == v.members[j];
    assert a != b;
    NeighboursTie(s, le, if a < b then a else b, if a < b then b else a);
    var k := if a < b then a else b;
    ExchangedSorted(s, le, k);
    var t := s[k := s[k + 1]][k + 1 := s[k]];
    Exchanged(s, k);
    RearrangedSame(v.members, t);
    w := Obj(t);
    assert Parts(v, le)[k].key == Some(s[k].key) && Parts(w, le)[k].key == Some(t[k].key);
    if Print(v, le) == Print(w, le) { EqualTextsEqualParts(v, w, le); }
  }

  lemma Exchanged(s: seq<Member>, k: nat)
    requires DistinctKeys(s) && k + 1 < |s|
    ensures var t := s[k := s[k + 1]][k + 1 := s[k]];
            Distinct(t) && (forall m :: m in t <==> m in s) && t[k].key != s[k].key
  {
    var t := s[k := s[k + 1]][k + 1 := s[k]];
    forall m ensures m in t <==> m in s {
      if m in s {
        var i :| 0 <= i < |s| && s[i] == m;
        assert t[if i == k then k + 1 else if i == k + 1 then k else i] == m;
      }
    }
  }

  lemma {:induction false} TiesAreAmbiguous(v: Json, le: Collation) returns (w: Json)
    requires TotalPreorder(le) && Valid(v) && !TieFree(v, le)
    ensures Ambiguous(v, w, le)
    decreases v
  {
    hide Ambiguous, TotalPreorder;
    if v.Arr? {
      var i: nat :| i < |v.items| && !TieFree(v.items[i], le);
      var x := TiesAreAmbiguous(v.items[i], le);
      w := ItemAmbiguous(v, i, x, le);
    } else if i, j :| 0 <= i < j < |v.members| && Ties(le, v.members[i].key, v.members[j].key) {
      w := TiedAmbiguous(v, i, j, le);
    } else {
      var i: nat :| i < |v.members| && !TieFree(v.members[i].value, le);
      var x := TiesAreAmbiguous(v.members[i].value, le);
      w := MemberAmbiguous(v, i, x, le);
    }
  }

  /** Whether a payload's text, and so its checksum, is that of every equal payload is decided by its keys alone:
      exactly when no object in it has two keys that collate equal. */
  lemma OrderIndependentIffTieFree(v: Json, le: Collation)
    requires TotalPreorder(le) && Valid(v)
    ensures TieFree(v, le) <==> forall w | Valid(w) && Same(v, w) :: Print(v, le) == Print(w, le)
  {
    hide Print, TotalPreorder, Valid, Same, TieFree;
    if TieFree(v, le) {
      forall w | Valid(w) && Same(v, w) ensures Print(v, le) == Print(w, le) { SamePrintsSame(v, w, le); }
    } else {
      var w := TiesAreAmbiguous(v, le);
      assert Valid(w) && Same(v, w) && Print(v, le) != Print(w, le);
    }
  }

  /** Under a collation that tells the keys apart, canonical texts are equal exactly for equal payloads. */
  lemma TextsEqualIffSame(v: Json, w: Json, le: Collation)
    requires TotalPreorder(le) && Valid(v) && Valid(w) && TieFree(v, le)
    ensures Print(v, le) == Print(w, le) <==> Same(v, w)
  {
    hide Print, TotalPreorder, Valid, Same, TieFree;
    if Print(v, le) == Print(w, le) { EqualTextsSame(v, w, le); }
    if Same(v, w) { SamePrintsSame(v, w, le); }
  }
}
