/** What link diagnostics say: an orphan's parent exists nowhere, a cross-scope link's parent only elsewhere
    (src/account-hierarchy.ts). */
module AccountHierarchyLinks {
  import opened Wrappers
  import opened Orders
  import opened AccountHierarchy
  import opened AccountHierarchyCheck

  /** Some loaded account carries the id of the account's parent. */
  ghost predicate HasCandidate(all: seq<Account>, a: Account) {
    a.parent.Some? && exists p | p in all :: p.key.id == a.parent.value
  }

  /** A validated account whose parent is missing from its own tenant and source. */
  ghost predicate Faulty(all: seq<Account>, validated: set<Key>, a: Account) {
    && a in all && a.key in validated && a.parent.Some?
    && forall p | p in all && p.key.id == a.parent.value ::
         p.key.tenant != a.key.tenant || p.key.source != a.key.source
  }

  lemma DiagnosisMeans(all: seq<Account>, le: (Account, Account) -> bool, a: Account)
    requires TotalPreorder(le) && a.parent.Some?
    ensures var d := LinkDiagnosis(all, le, a);
            && (d == Orphan(a) <==> !HasCandidate(all, a))
            && (d != Orphan(a) ==>
                  && d.CrossScope? && d.child == a && d.candidate in all && d.candidate.key.id == a.parent.value
                  && forall p | p in all && p.key.id == a.parent.value :: p == d.candidate || le(d.candidate, p))
  {
    hide SortBy;
    var found := WithId(all, a.parent.value);
    SameElements(SortBy(found, le), found);
    SortBySorts(found, le);
    if SortBy(found, le) != [] {
      HasFirst(SortBy(found, le));
      forall p | p in all && p.key.id == a.parent.value
        ensures p == SortBy(found, le)[0] || le(SortBy(found, le)[0], p)
      {
        assert p in found;
        FirstPrecedes(SortBy(found, le), le, p);
      }
    } else {
      assert forall p :: p !in found;
    }
  }

  lemma DiagnosedLast(all: seq<Account>, validated: set<Key>, le: (Account, Account) -> bool, front: seq<Account>,
                      a: Account)
    requires a in all
    ensures Faulty(all, validated, a) ==>
              LinkDiagnostics(all, validated, le, front + [a])
              == LinkDiagnostics(all, validated, le, front) + [LinkDiagnosis(all, le, a)]
    ensures !Faulty(all, validated, a) ==>
              LinkDiagnostics(all, validated, le, front + [a]) == LinkDiagnostics(all, validated, le, front)
  {
    hide Faulty, LinkInScope, LinkDiagnosis;
    assert (front + [a])[..|front|] == front;
    if a.parent.Some? { FaultyIff(all, validated, a); } else { NoParentNoFault(all, validated, a); }
  }

  /** The diagnostic is of one of the accounts, which is faulty. */
  ghost predicate DiagnosisOf(all: seq<Account>, validated: set<Key>, le: (Account, Account) -> bool,
                              prefix: seq<Account>, d: Diagnostic)
  {
    && !d.Cycle? && d.child in prefix && Faulty(all, validated, d.child) && d.child.parent.Some?
    && d == LinkDiagnosis(all, le, d.child)
  }

  /** The link diagnostics of the first accounts are exactly those of the faulty ones among them. */
  lemma {:induction false} DiagnosedIffFaulty(all: seq<Account>, validated: set<Key>, le: (Account, Account) -> bool,
                                              prefix: seq<Account>, d: Diagnostic)
    requires forall a | a in prefix :: a in all
    ensures d in LinkDiagnostics(all, validated, le, prefix) <==> DiagnosisOf(all, validated, le, prefix, d)
  {
    hide Faulty, LinkDiagnostics, LinkDiagnosis;
    if prefix == [] {
      NothingDiagnosed(all, validated, le);
    } else {
      var front, a := prefix[..|prefix| - 1], prefix[|prefix| - 1];
      assert prefix == front + [a];
      DiagnosedIffFaulty(all, validated, le, front, d);
      DiagnosedLast(all, validated, le, front, a);
      if a.parent.Some? { ChildOf(all, le, a); } else { NoParentNoFault(all, validated, a); }
    }
  }

  lemma NothingDiagnosed(all: seq<Account>, validated: set<Key>, le: (Account, Account) -> bool)
    ensures LinkDiagnostics(all, validated, le, []) == []
  {
  }

  lemma ChildOf(all: seq<Account>, le: (Account, Account) -> bool, a: Account)
    requires a.parent.Some?
    ensures !LinkDiagnosis(all, le, a).Cycle? && LinkDiagnosis(all, le, a).child == a
  {
  }

  lemma FaultyIff(all: seq<Account>, validated: set<Key>, a: Account)
    requires a in all && a.parent.Some?
    ensures Faulty(all, validated, a) <==> !LinkInScope(all, a) && a.key in validated
  {
  }

  /** Orphan and cross-scope diagnostics tell exactly the faulty links apart, one for each: an orphan's parent id is
      carried by no loaded account at all; otherwise the diagnosis names the first account that carries it, which lies
      in another tenant or source. */
  lemma LinkDiagnosticsTellApart(accounts: seq<Account>, validated: seq<Account>, le: (Account, Account) -> bool,
                                 a: Account)
    requires TotalPreorder(le)
    ensures var all := Loaded(accounts, validated, le); var ds := Diagnostics(accounts, validated, le);
            && (Orphan(a) in ds <==> Faulty(all, Keys(validated), a) && !HasCandidate(all, a))
            && ((exists p :: CrossScope(a, p) in ds) <==> Faulty(all, Keys(validated), a) && HasCandidate(all, a))
            && (forall p | CrossScope(a, p) in ds ::
                  && p in all && a.parent == Some(p.key.id)
                  && (p.key.tenant != a.key.tenant || p.key.source != a.key.source)
                  && forall q | q in all && a.parent == Some(q.key.id) :: q == p || le(p, q))
            && (forall p, q | CrossScope(a, p) in ds && CrossScope(a, q) in ds :: p == q)
  {
    hide Loaded, LinkDiagnostics, LinkDiagnosis, TotalPreorder, HasCandidate, Faulty, CycleDiagnostics, SortBy;
    var all := Loaded(accounts, validated, le);
    var links := LinkDiagnostics(all, Keys(validated), le, all);
    forall d ensures d in links <==> DiagnosisOf(all, Keys(validated), le, all, d) {
      DiagnosedIffFaulty(all, Keys(validated), le, all, d);
    }
    OnlyLinks(accounts, validated, le);
    CandidateElsewhere(all, Keys(validated), a);
    if a.parent.Some? {
      DiagnosisMeans(all, le, a);
      FaultyIsLoaded(all, Keys(validated), a);
      var d := LinkDiagnosis(all, le, a);
      assert DiagnosisOf(all, Keys(validated), le, all, d) <==> Faulty(all, Keys(validated), a);
      assert HasCandidate(all, a) ==> d == CrossScope(a, d.candidate);
    } else {
      NoParentNoFault(all, Keys(validated), a);
    }
  }

  lemma FaultyIsLoaded(all: seq<Account>, validated: set<Key>, a: Account)
    ensures Faulty(all, validated, a) ==> a in all
  {
  }

  lemma CandidateElsewhere(all: seq<Account>, validated: set<Key>, a: Account)
    ensures forall p | p in all && a.parent == Some(p.key.id) && Faulty(all, validated, a) ::
              p.key.tenant != a.key.tenant || p.key.source != a.key.source
  {
  }

  lemma NoParentNoFault(all: seq<Account>, validated: set<Key>, a: Account)
    requires a.parent.None?
    ensures !Faulty(all, validated, a)
  {
  }

  /** Of the diagnostics, those that are no cycles are the link diagnostics. */
  lemma OnlyLinks(accounts: seq<Account>, validated: seq<Account>, le: (Account, Account) -> bool)
    ensures var all := Loaded(accounts, validated, le);
            forall d: Diagnostic | !d.Cycle? ::
              d in Diagnostics(accounts, validated, le) <==> d in LinkDiagnostics(all, Keys(validated), le, all)
  {
    hide Loaded, LinkDiagnostics, Cycles, Links;
  }

  /** Deduplication keeps the first account of every scope key. */
  lemma {:induction false} DedupeKeepsFirst(accounts: seq<Account>, a: Account)
    requires a in Dedupe(accounts)
    ensures exists i :: 0 <= i < |accounts| && accounts[i] == a && forall j | 0 <= j < i :: accounts[j].key != a.key
  {
    var front, last := accounts[..|accounts| - 1], accounts[|accounts| - 1];
    DedupeKeepsKeys(front);
    if a in Dedupe(front) {
      DedupeKeepsFirst(front, a);
      var i :| 0 <= i < |front| && front[i] == a && forall j | 0 <= j < i :: front[j].key != a.key;
      assert accounts[i] == a && forall j | 0 <= j < i :: accounts[j] == front[j];
    } else {
      assert a == last && a.key !in Keys(front);
      forall j | 0 <= j < |front| ensures accounts[j].key != a.key { assert front[j] in front; }
      assert accounts[|front|] == a;
    }
  }
}
