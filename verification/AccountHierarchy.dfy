/** The account hierarchy check: parent links resolved in their scope, and a marked depth-first search for parent
    cycles (src/account-hierarchy.ts). */
module AccountHierarchy {
  import opened Wrappers
  import opened Orders

  /** The scope key: tenant, source and account id. */
  datatype Key = Key(tenant: nat, source: nat, id: nat)

  datatype Account = Account(key: Key, parent: Option<nat>)

  datatype Diagnostic =
    | Orphan(child: Account)
    | CrossScope(child: Account, candidate: Account)
    | Cycle(members: seq<Account>)

  // ---- resolving links ----

  function Keys(accounts: seq<Account>): set<Key> {
    set a | a in accounts :: a.key
  }

  ghost predicate DistinctKeys(accounts: seq<Account>) {
    forall i, j | 0 <= i < j < |accounts| :: accounts[i].key != accounts[j].key
  }

  /** The first account of every scope key. */
  function Dedupe(accounts: seq<Account>): seq<Account> {
    if accounts == [] then []
    else
      var rest := Dedupe(accounts[..|accounts| - 1]);
      var a := accounts[|accounts| - 1];
      if a.key in Keys(rest) then rest else rest + [a]
  }

  /** Deduplication keeps every scope key, each once, with an account that carried it. */
  lemma {:induction false} DedupeKeepsKeys(accounts: seq<Account>)
    ensures DistinctKeys(Dedupe(accounts)) && Keys(Dedupe(accounts)) == Keys(accounts)
    ensures forall a | a in Dedupe(accounts) :: a in accounts
  {
    if accounts != [] {
      var front := accounts[..|accounts| - 1];
      DedupeKeepsKeys(front);
      assert accounts == front + [accounts[|accounts| - 1]];
      assert Keys(accounts) == Keys(front) + {accounts[|accounts| - 1].key};
      assert Dedupe(accounts) == Dedupe(front)
             || Keys(Dedupe(accounts)) == Keys(Dedupe(front)) + {accounts[|accounts| - 1].key};
    }
  }

  function ParentKey(a: Account): Key
    requires a.parent.Some?
  {
    a.key.(id := a.parent.value)
  }

  /** The accounts carrying an id, in any scope. */
  function WithId(accounts: seq<Account>, id: nat): (r: seq<Account>)
    ensures forall a :: a in r <==> a in accounts && a.key.id == id
  {
    if accounts == [] then []
    else
      var rest := WithId(accounts[..|accounts| - 1], id);
      var a := accounts[|accounts| - 1];
      if a.key.id == id then rest + [a] else rest
  }

  predicate SameScope(a: Account, b: Account) {
    a.key.tenant == b.key.tenant && a.key.source == b.key.source
  }

  /** An account's link is in scope: it has none, or its parent exists in its own tenant and source. */
  predicate LinkInScope(all: seq<Account>, a: Account) {
    a.parent.Some? ==> exists p | p in all :: SameScope(a, p) && p.key.id == a.parent.value
  }

  /** The valid parent links of the first accounts, resolved among all of them. */
  function Links(all: seq<Account>, prefix: seq<Account>): map<Key, Key> {
    if prefix == [] then map[]
    else
      var rest := Links(all, prefix[..|prefix| - 1]);
      var a := prefix[|prefix| - 1];
      if a.parent.Some? && LinkInScope(all, a) then rest[a.key := ParentKey(a)] else rest
  }

  /** The diagnosis of a validated account whose link leaves its scope: the first candidate, if any, names it. */
  function LinkDiagnosis(all: seq<Account>, le: (Account, Account) -> bool, a: Account): Diagnostic
    requires a.parent.Some?
  {
    var candidates := SortBy(WithId(all, a.parent.value), le);
    if candidates == [] then Orphan(a) else CrossScope(a, candidates[0])
  }

  function LinkDiagnostics(all: seq<Account>, validated: set<Key>, le: (Account, Account) -> bool,
                           prefix: seq<Account>): seq<Diagnostic>
  {
    if prefix == [] then []
    else
      var rest := LinkDiagnostics(all, validated, le, prefix[..|prefix| - 1]);
      var a := prefix[|prefix| - 1];
      if a.parent.Some? && !LinkInScope(all, a) && a.key in validated then rest + [LinkDiagnosis(all, le, a)] else rest
  }

  // ---- the search ----

  function Elements(s: seq<Key>): set<Key> {
    set k | k in s
  }

  function IndexOf(s: seq<Key>, k: Key): (i: nat)
    requires k in s
    ensures i < |s| && s[i] == k && forall j | 0 <= j < i :: s[j] != k
  {
    if s[0] == k then 0 else 1 + IndexOf(s[1..], k)
  }

  /** The cycle, if any, that closes when parent links are followed from k with these keys on the stack. */
  function Explore(parent: map<Key, Key>, done: set<Key>, stack: seq<Key>, k: Key): Option<seq<Key>>
    decreases parent.Keys - Elements(stack)
  {
    if k in stack then Some(stack[IndexOf(stack, k)..])
    else if k in done || k !in parent then None
    else
      assert k in parent.Keys - Elements(stack) && k in Elements(stack + [k]);
      Explore(parent, done, stack + [k], parent[k])
  }

  /** The keys that the same search marks. */
  function Marked(parent: map<Key, Key>, done: set<Key>, stack: seq<Key>, k: Key): set<Key>
    decreases parent.Keys - Elements(stack)
  {
    if k in stack || k in done then {}
    else if k !in parent then {k}
    else
      assert k in parent.Keys - Elements(stack) && k in Elements(stack + [k]);
      {k} + Marked(parent, done, stack + [k], parent[k])
  }

  function Found(c: Option<seq<Key>>): seq<seq<Key>> {
    if c.Some? then [c.value] else []
  }

  /** The keys marked, and the cycles found, by searching from each key in turn. */
  function DoneAfter(parent: map<Key, Key>, keys: seq<Key>): set<Key> {
    if keys == [] then {}
    else
      var done := DoneAfter(parent, keys[..|keys| - 1]);
      done + Marked(parent, done, [], keys[|keys| - 1])
  }

  function Cycles(parent: map<Key, Key>, keys: seq<Key>): seq<seq<Key>> {
    if keys == [] then []
    else
      var front := keys[..|keys| - 1];
      Cycles(parent, front) + Found(Explore(parent, DoneAfter(parent, front), [], keys[|keys| - 1]))
  }

  // ---- cycles and roots ----

  ghost predicate IsCycle(parent: map<Key, Key>, c: seq<Key>) {
    && |c| > 0
    && (forall i, j | 0 <= i < j < |c| :: c[i] != c[j])
    && (forall i | 0 <= i < |c| :: c[i] in parent)
    && (forall i | 0 <= i < |c| - 1 :: parent[c[i]] == c[i + 1])
    && parent[c[|c| - 1]] == c[0]
  }

  /** The key reached by following n parent links, none once past a root. */
  function Ancestor<K>(parent: map<K, K>, k: K, n: nat): Option<K>
    decreases n
  {
    if n == 0 then Some(k)
    else if k in parent then Ancestor(parent, parent[k], n - 1)
    else None
  }

  ghost predicate ReachesRoot<K(!new)>(parent: map<K, K>, k: K) {
    exists n: nat :: Ancestor(parent, k, n).None?
  }

  ghost predicate Reaches(parent: map<Key, Key>, k: Key, c: seq<Key>) {
    exists n: nat :: Ancestor(parent, k, n).Some? && Ancestor(parent, k, n).value in c
  }

  lemma NextInCycle(parent: map<Key, Key>, c: seq<Key>, k: Key)
    requires IsCycle(parent, c) && k in c
    ensures k in parent && parent[k] in c
  {
    var i := IndexOf(c, k);
    if i < |c| - 1 { assert parent[k] == c[i + 1]; }
  }

  lemma {:induction false} AncestorsInCycle(parent: map<Key, Key>, c: seq<Key>, k: Key, n: nat)
    requires IsCycle(parent, c) && k in c
    ensures Ancestor(parent, k, n).Some? && Ancestor(parent, k, n).value in c
    decreases n
  {
    if n > 0 {
      NextInCycle(parent, c, k);
      AncestorsInCycle(parent, c, parent[k], n - 1);
    }
  }

  lemma {:induction false} CycleIsAncestors(parent: map<Key, Key>, c: seq<Key>, i: nat)
    requires IsCycle(parent, c) && i < |c|
    ensures Ancestor(parent, c[0], i) == Some(c[i])
    decreases i
  {
    if i > 0 {
      CycleIsAncestors(parent, c, i - 1);
      AncestorStep(parent, c[0], i - 1);
    }
  }

  lemma {:induction false} AncestorStep<K>(parent: map<K, K>, k: K, n: nat)
    requires Ancestor(parent, k, n).Some?
    ensures var a := Ancestor(parent, k, n).value;
            Ancestor(parent, k, n + 1) == if a in parent then Some(parent[a]) else None
    decreases n
  {
    if n > 0 { AncestorStep(parent, parent[k], n - 1); }
  }

  /** Every member of a cycle is reached from every other one. */
  lemma {:induction false} MemberReachesHead(parent: map<Key, Key>, c: seq<Key>, i: nat)
    requires IsCycle(parent, c) && i < |c|
    ensures Ancestor(parent, c[i], |c| - i) == Some(c[0])
    decreases |c| - i
  {
    if i < |c| - 1 {
      MemberReachesHead(parent, c, i + 1);
    } else {
      assert Ancestor(parent, c[0], 0) == Some(c[0]);
    }
  }

  lemma CycleWithin(parent: map<Key, Key>, c: seq<Key>, d: seq<Key>, k: Key)
    requires IsCycle(parent, c) && IsCycle(parent, d) && k in c && k in d
    ensures Elements(c) <= Elements(d)
  {
    MemberReachesHead(parent, c, IndexOf(c, k));
    AncestorsInCycle(parent, d, k, |c| - IndexOf(c, k));
    forall x | x in c ensures x in d {
      CycleIsAncestors(parent, c, IndexOf(c, x));
      AncestorsInCycle(parent, d, c[0], IndexOf(c, x));
    }
  }

  /** Parent cycles that share a member are the same cycle. */
  lemma SharedMemberSameCycle(parent: map<Key, Key>, c: seq<Key>, d: seq<Key>, k: Key)
    requires IsCycle(parent, c) && IsCycle(parent, d) && k in c && k in d
    ensures Elements(c) == Elements(d)
  {
    CycleWithin(parent, c, d, k);
    CycleWithin(parent, d, c, k);
  }

  // ---- what one search finds ----

  /** The stack is a chain of parent links ending at k. */
  ghost predicate ChainTo(parent: map<Key, Key>, stack: seq<Key>, k: Key) {
    && (forall i, j | 0 <= i < j < |stack| :: stack[i] != stack[j])
    && (forall i | 0 <= i < |stack| :: stack[i] in parent)
    && (forall i | 0 <= i < |stack| - 1 :: parent[stack[i]] == stack[i + 1])
    && (stack != [] ==> parent[stack[|stack| - 1]] == k)
  }

  lemma SuffixIsCycle(parent: map<Key, Key>, stack: seq<Key>, k: Key, i: nat)
    requires ChainTo(parent, stack, k) && i < |stack| && stack[i] == k
    ensures IsCycle(parent, stack[i..])
  {
    var c := stack[i..];
    assert |c| > 0 && c[0] == k;
    forall a, b | 0 <= a < b < |c| ensures c[a] != c[b] {
      assert stack[i + a] != stack[i + b];
    }
    forall a | 0 <= a < |c| ensures c[a] in parent {
      assert stack[i + a] in parent;
    }
    forall a | 0 <= a < |c| - 1 ensures parent[c[a]] == c[a + 1] {
      assert parent[stack[i + a]] == stack[i + a + 1];
    }
  }

  lemma SuffixElements(stack: seq<Key>, i: nat)
    requires i < |stack|
    ensures stack[i] in stack[i..] && Elements(stack[i..]) <= Elements(stack)
  {
    assert stack[i] == stack[i..][0];
    forall x | x in stack[i..] ensures x in stack {
      var a :| 0 <= a < |stack[i..]| && stack[i..][a] == x;
      assert stack[i + a] == x;
    }
  }

  lemma StackedSuffixIsCycle(parent: map<Key, Key>, done: set<Key>, stack: seq<Key>, k: Key)
    requires ChainTo(parent, stack, k) && Elements(stack) !! done && k in stack
    ensures var c := stack[IndexOf(stack, k)..];
            IsCycle(parent, c) && k in c && Elements(c) <= Elements(stack) && Elements(c) !! done
  {
    hide IsCycle, ChainTo, Elements;
    SuffixIsCycle(parent, stack, k, IndexOf(stack, k));
    SuffixElements(stack, IndexOf(stack, k));
  }

  lemma Extended(parent: map<Key, Key>, done: set<Key>, stack: seq<Key>, k: Key)
    requires ChainTo(parent, stack, k) && Elements(stack) !! done
    requires k in parent && k !in stack && k !in done
    ensures k in parent.Keys - Elements(stack) && Elements(stack + [k]) == Elements(stack) + {k}
    ensures ChainTo(parent, stack + [k], parent[k]) && Elements(stack + [k]) !! done
  {
  }

  lemma ReachesFromParent(parent: map<Key, Key>, k: Key, c: seq<Key>)
    requires k in parent && Reaches(parent, parent[k], c)
    ensures Reaches(parent, k, c)
  {
    var n: nat :| Ancestor(parent, parent[k], n).Some? && Ancestor(parent, parent[k], n).value in c;
    assert Ancestor(parent, k, n + 1) == Ancestor(parent, parent[k], n);
  }

  lemma {:induction false} ExploreFindsCycle(parent: map<Key, Key>, done: set<Key>, stack: seq<Key>, k: Key)
    requires ChainTo(parent, stack, k) && Elements(stack) !! done
    requires Explore(parent, done, stack, k).Some?
    ensures var c := Explore(parent, done, stack, k).value;
            IsCycle(parent, c) && Elements(c) !! done && Elements(c) <= Elements(stack) + Marked(parent, done, stack, k)
            && Reaches(parent, k, c)
    decreases parent.Keys - Elements(stack)
  {
    if k in stack {
      StackedSuffixIsCycle(parent, done, stack, k);
      assert Ancestor(parent, k, 0) == Some(k);
    } else {
      hide IsCycle, Reaches, ChainTo;
      Extended(parent, done, stack, k);
      ExploreFindsCycle(parent, done, stack + [k], parent[k]);
      ReachesFromParent(parent, k, Explore(parent, done, stack, k).value);
    }
  }

  /** A cycle that the search runs into is the one it reports, unless it was marked before. */
  lemma {:induction false} ExploreReportsCycle(parent: map<Key, Key>, done: set<Key>, stack: seq<Key>, k: Key,
                                               d: seq<Key>)
    requires ChainTo(parent, stack, k) && Elements(stack) !! done && IsCycle(parent, d) && k in d
    ensures !(Elements(d) !! done)
            || (Explore(parent, done, stack, k).Some? && Elements(Explore(parent, done, stack, k).value) == Elements(d))
    decreases parent.Keys - Elements(stack)
  {
    NextInCycle(parent, d, k);
    if k in stack {
      ExploreFindsCycle(parent, done, stack, k);
      SharedMemberSameCycle(parent, stack[IndexOf(stack, k)..], d, k);
    } else if k in done {
      assert k in Elements(d);
    } else {
      assert k in parent.Keys - Elements(stack) && k in Elements(stack + [k]);
      ExploreReportsCycle(parent, done, stack + [k], parent[k], d);
    }
  }

  lemma {:induction false} MarkedCycleReported(parent: map<Key, Key>, done: set<Key>, stack: seq<Key>, k: Key,
                                               d: seq<Key>, x: Key)
    requires ChainTo(parent, stack, k) && Elements(stack) !! done && IsCycle(parent, d)
    requires x in Marked(parent, done, stack, k) && x in d
    ensures !(Elements(d) !! done)
            || (Explore(parent, done, stack, k).Some? && Elements(Explore(parent, done, stack, k).value) == Elements(d))
    decreases parent.Keys - Elements(stack)
  {
    if x == k {
      ExploreReportsCycle(parent, done, stack, k, d);
    } else {
      assert k in parent.Keys - Elements(stack) && k in Elements(stack + [k]);
      MarkedCycleReported(parent, done, stack + [k], parent[k], d, x);
    }
  }

  /** The marked keys are closed under parent links. */
  ghost predicate Closed(parent: map<Key, Key>, done: set<Key>) {
    forall k | k in done && k in parent :: parent[k] in done
  }

  lemma {:induction false} MarkedClosed(parent: map<Key, Key>, done: set<Key>, stack: seq<Key>, k: Key)
    requires Closed(parent, done)
    ensures var all := done + Elements(stack) + Marked(parent, done, stack, k);
            k in all && forall x | x in Marked(parent, done, stack, k) && x in parent :: parent[x] in all
    decreases parent.Keys - Elements(stack)
  {
    if k !in stack && k !in done && k in parent {
      assert k in parent.Keys - Elements(stack) && k in Elements(stack + [k]);
      MarkedClosed(parent, done, stack + [k], parent[k]);
      assert Elements(stack + [k]) == Elements(stack) + {k};
    }
  }

  ghost predicate AllReachRoots(parent: map<Key, Key>, keys: set<Key>) {
    forall k | k in keys :: ReachesRoot(parent, k)
  }

  /** From marked keys that all reach a root, the search finds no cycle exactly when k reaches one too. */
  lemma {:induction false} ExploreNoneIffRoot(parent: map<Key, Key>, done: set<Key>, stack: seq<Key>, k: Key)
    requires ChainTo(parent, stack, k) && Elements(stack) !! done
    requires AllReachRoots(parent, done)
    ensures Explore(parent, done, stack, k).None? <==> ReachesRoot(parent, k)
    ensures Explore(parent, done, stack, k).None? ==> AllReachRoots(parent, Marked(parent, done, stack, k))
    decreases parent.Keys - Elements(stack)
  {
    if k in stack {
      ExploreFindsCycle(parent, done, stack, k);
      var c := stack[IndexOf(stack, k)..];
      forall n: nat ensures Ancestor(parent, k, n).Some? {
        AncestorsInCycle(parent, c, k, n);
      }
    } else if k in done {
    } else if k !in parent {
      assert Ancestor(parent, k, 1).None?;
    } else {
      assert k in parent.Keys - Elements(stack) && k in Elements(stack + [k]);
      ExploreNoneIffRoot(parent, done, stack + [k], parent[k]);
      RootOfParent(parent, k);
    }
  }

  lemma RootOfParent(parent: map<Key, Key>, k: Key)
    requires k in parent
    ensures ReachesRoot(parent, k) <==> ReachesRoot(parent, parent[k])
  {
    if ReachesRoot(parent, k) {
      var n: nat :| Ancestor(parent, k, n).None?;
      assert Ancestor(parent, parent[k], n - 1).None?;
    }
    if ReachesRoot(parent, parent[k]) {
      var n: nat :| Ancestor(parent, parent[k], n).None?;
      assert Ancestor(parent, k, n + 1).None?;
    }
  }

  // ---- what the whole search finds ----

  lemma {:induction false} DoneIsClosed(parent: map<Key, Key>, keys: seq<Key>)
    ensures Closed(parent, DoneAfter(parent, keys))
    ensures forall k | k in keys :: k in DoneAfter(parent, keys)
  {
    if keys != [] {
      var front := keys[..|keys| - 1];
      DoneIsClosed(parent, front);
      MarkedClosed(parent, DoneAfter(parent, front), [], keys[|keys| - 1]);
      assert keys == front + [keys[|keys| - 1]];
    }
  }

  ghost predicate ReachedFrom(parent: map<Key, Key>, keys: seq<Key>, c: seq<Key>) {
    exists k | k in keys :: Reaches(parent, k, c)
  }

  ghost predicate Disjoint(cycles: seq<seq<Key>>) {
    forall i, j | 0 <= i < j < |cycles| :: Elements(cycles[i]) !! Elements(cycles[j])
  }

  /** Every reported cycle is a parent cycle of marked keys, reached from one of the accounts searched from, and no
      two reported cycles share a member. */
  lemma {:induction false} ReportedCyclesAreCycles(parent: map<Key, Key>, keys: seq<Key>)
    ensures forall c | c in Cycles(parent, keys) ::
              IsCycle(parent, c) && Elements(c) <= DoneAfter(parent, keys) && ReachedFrom(parent, keys, c)
    ensures Disjoint(Cycles(parent, keys))
  {
    hide Explore, Marked, IsCycle, Reaches, Elements;
    if keys != [] {
      var front, k := keys[..|keys| - 1], keys[|keys| - 1];
      var done := DoneAfter(parent, front);
      ReportedCyclesAreCycles(parent, front);
      assert keys == front + [k];
      assert forall c | ReachedFrom(parent, front, c) :: ReachedFrom(parent, keys, c);
      if Explore(parent, done, [], k).Some? {
        NothingStacked(parent, k);
        ExploreFindsCycle(parent, done, [], k);
        var c := Explore(parent, done, [], k).value;
        assert k in keys && ReachedFrom(parent, keys, c);
        assert Cycles(parent, keys) == Cycles(parent, front) + [c];
      } else {
        assert Cycles(parent, keys) == Cycles(parent, front);
      }
    }
  }

  lemma NothingStacked(parent: map<Key, Key>, k: Key)
    ensures ChainTo(parent, [], k) && Elements([]) == {}
  {
  }

  ghost predicate Reports(cycles: seq<seq<Key>>, d: seq<Key>) {
    exists c | c in cycles :: Elements(c) == Elements(d)
  }

  lemma {:induction false} MarkedCyclesReported(parent: map<Key, Key>, keys: seq<Key>, d: seq<Key>, x: Key)
    requires IsCycle(parent, d) && x in d && x in DoneAfter(parent, keys)
    ensures Reports(Cycles(parent, keys), d)
  {
    var front, k := keys[..|keys| - 1], keys[|keys| - 1];
    var done := DoneAfter(parent, front);
    if !(Elements(d) !! done) {
      var y :| y in d && y in done;
      MarkedCyclesReported(parent, front, d, y);
      var c :| c in Cycles(parent, front) && Elements(c) == Elements(d);
      assert c in Cycles(parent, keys);
    } else {
      assert x in Elements(d);
      MarkedCycleReported(parent, done, [], k, d, x);
      assert Explore(parent, done, [], k).value in Cycles(parent, keys);
    }
  }

  lemma {:induction false} AncestorsMarked(parent: map<Key, Key>, done: set<Key>, k: Key, n: nat)
    requires Closed(parent, done) && k in done && Ancestor(parent, k, n).Some?
    ensures Ancestor(parent, k, n).value in done
    decreases n
  {
    if n > 0 { AncestorsMarked(parent, done, parent[k], n - 1); }
  }

  /** Every parent cycle that an account searched from runs into is reported, and by exactly one entry. */
  lemma EveryCycleReportedOnce(parent: map<Key, Key>, keys: seq<Key>, k: Key, d: seq<Key>)
    requires k in keys && IsCycle(parent, d) && Reaches(parent, k, d)
    ensures exists i :: 0 <= i < |Cycles(parent, keys)| && Elements(Cycles(parent, keys)[i]) == Elements(d)
    ensures forall i, j | 0 <= i < j < |Cycles(parent, keys)| ::
              Elements(Cycles(parent, keys)[i]) != Elements(d) || Elements(Cycles(parent, keys)[j]) != Elements(d)
  {
    DoneIsClosed(parent, keys);
    var n: nat :| Ancestor(parent, k, n).Some? && Ancestor(parent, k, n).value in d;
    AncestorsMarked(parent, DoneAfter(parent, keys), k, n);
    MarkedCyclesReported(parent, keys, d, Ancestor(parent, k, n).value);
    ReportedCyclesAreCycles(parent, keys);
    assert d[0] in Elements(d);
  }

  /** No cycle is reported exactly when every account searched from reaches a root. */
  lemma {:induction false} NoCycleIffRoots(parent: map<Key, Key>, keys: seq<Key>)
    ensures Cycles(parent, keys) == [] <==> AllReachRoots(parent, Elements(keys))
    ensures Cycles(parent, keys) == [] ==> AllReachRoots(parent, DoneAfter(parent, keys))
  {
    hide Explore, Marked, AllReachRoots, ChainTo;
    if keys == [] {
      assert Elements(keys) == {};
      AllReachUnion(parent, {}, {});
    } else {
      var front, k := keys[..|keys| - 1], keys[|keys| - 1];
      var done := DoneAfter(parent, front);
      NoCycleIffRoots(parent, front);
      assert keys == front + [k];
      assert Elements(keys) == Elements(front) + {k};
      AllReachUnion(parent, Elements(front), {k});
      AllReachUnion(parent, done, Marked(parent, done, [], k));
      if Cycles(parent, front) == [] {
        NothingStacked(parent, k);
        ExploreNoneIffRoot(parent, done, [], k);
      }
    }
  }

  lemma AllReachUnion(parent: map<Key, Key>, a: set<Key>, b: set<Key>)
    ensures AllReachRoots(parent, a + b) <==> AllReachRoots(parent, a) && AllReachRoots(parent, b)
    ensures AllReachRoots(parent, {})
    ensures forall k :: AllReachRoots(parent, {k}) <==> ReachesRoot(parent, k)
  {
  }
}
