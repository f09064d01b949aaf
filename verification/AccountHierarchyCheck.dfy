/** The check over whole account lists: the search over its mark table and stack, the diagnostics it emits, and when
    there are none. */
module AccountHierarchyCheck {
  import opened Wrappers
  import opened Orders
  import opened AccountHierarchy

  // ---- diagnostics ----

  function Find(all: seq<Account>, k: Key): (a: Account)
    requires k in Keys(all)
    ensures a in all && a.key == k
  {
    if all[0].key == k then all[0] else Find(all[1..], k)
  }

  /** The accounts of a cycle's keys; keys without an account are dropped. */
  function Members(all: seq<Account>, c: seq<Key>): seq<Account> {
    if c == [] then []
    else Members(all, c[..|c| - 1]) + if c[|c| - 1] in Keys(all) then [Find(all, c[|c| - 1])] else []
  }

  function CycleDiagnostics(all: seq<Account>, cycles: seq<seq<Key>>): seq<Diagnostic> {
    seq(|cycles|, i requires 0 <= i < |cycles| => Cycle(Members(all, cycles[i])))
  }

  function KeyList(accounts: seq<Account>): seq<Key> {
    seq(|accounts|, i requires 0 <= i < |accounts| => accounts[i].key)
  }

  /** The loaded accounts that links are resolved among. */
  function Loaded(accounts: seq<Account>, validated: seq<Account>, le: (Account, Account) -> bool): seq<Account> {
    SortBy(Dedupe(accounts + validated), le)
  }

  function Diagnostics(accounts: seq<Account>, validated: seq<Account>, le: (Account, Account) -> bool): seq<Diagnostic>
  {
    var all := Loaded(accounts, validated, le);
    LinkDiagnostics(all, Keys(validated), le, all)
      + CycleDiagnostics(all, Cycles(Links(all, all), KeyList(SortBy(validated, le))))
  }

  // ---- the search in place ----

  datatype Mark = Visiting | Visited

  class CycleSearch {
    const parent: map<Key, Key>
    const accounts: seq<Account>
    var state: map<Key, Mark>
    var stack: seq<Key>
    /** A cycle's signature is its sorted keys, that is, the set of them. */
    var emitted: set<set<Key>>
    var diagnostics: seq<Diagnostic>

    constructor (parent: map<Key, Key>, accounts: seq<Account>)
      ensures this.parent == parent && this.accounts == accounts
      ensures Valid() && stack == [] && Done() == {} && diagnostics == [] && EmittedAmong({})
    {
      this.parent, this.accounts := parent, accounts;
      state, stack, emitted, diagnostics := map[], [], {}, [];
    }

    ghost function Done(): set<Key>
      reads this`state
    {
      set k | k in state && state[k] == Visited
    }

    ghost predicate Valid()
      reads this`state, this`stack
    {
      forall k :: (k in state && state[k] == Visiting) <==> k in stack
    }

    ghost predicate EmittedAmong(keys: set<Key>)
      reads this`emitted
    {
      forall e | e in emitted :: e != {} && e <= keys
    }

    lemma StateOf(k: Key)
      requires Valid()
      ensures (k in state && state[k] == Visiting) <==> k in stack
      ensures (k in state && state[k] == Visited) <==> k in Done()
      ensures EmittedAmong(Done()) ==> EmittedAmong(Done() + Elements(stack))
    {
    }

    /** Reports the cycle closed by a key on the stack: the signature test never suppresses it. */
    method EmitCycle(k: Key)
      requires Valid() && k in stack && EmittedAmong(Done())
      modifies this`emitted, this`diagnostics
      ensures EmittedAmong(Done() + Elements(stack))
      ensures diagnostics == old(diagnostics) + CycleDiagnostics(accounts, [stack[IndexOf(stack, k)..]])
    {
      var cycle := stack[IndexOf(stack, k)..];
      var signature := Elements(cycle);
      assert k == cycle[0] && k in signature && k !in Done();
      if signature !in emitted {
        emitted := emitted + {signature};
        diagnostics := diagnostics + [Cycle(Members(accounts, cycle))];
      }
    }

    /** One visit marks exactly the keys of the specified search and emits exactly the cycle it finds. */
    method Visit(k: Key)
      requires Valid() && ChainTo(parent, stack, k) && EmittedAmong(Done())
      modifies this
      ensures Valid() && stack == old(stack) && EmittedAmong(Done() + Elements(stack))
      ensures Done() == old(Done()) + Marked(parent, old(Done()), old(stack), k)
      ensures diagnostics
              == old(diagnostics) + CycleDiagnostics(accounts, Found(Explore(parent, old(Done()), old(stack), k)))
      decreases parent.Keys - Elements(stack)
    {
      hide Members, Links, Keys, IsCycle, Valid, EmittedAmong, Done;
      StateOf(k);
      if k in state && state[k] == Visiting {
        EmitCycle(k);
        return;
      }
      if k in state {
        return;
      }
      Push(k);
      if k in parent {
        assert k in parent.Keys - Elements(old(stack)) && k in Elements(stack);
        Visit(parent[k]);
      }
      Pop(k);
    }

    method Push(k: Key)
      requires Valid() && k !in state && EmittedAmong(Done())
      modifies this`stack, this`state
      ensures Valid() && stack == old(stack) + [k] && Done() == old(Done()) && EmittedAmong(Done())
      ensures k !in old(stack) && k !in Done()
    {
      state := state[k := Visiting];
      stack := stack + [k];
      assert Done() == old(Done());
    }

    method Pop(k: Key)
      requires Valid() && stack != [] && stack[|stack| - 1] == k && k !in stack[..|stack| - 1]
      requires EmittedAmong(Done() + Elements(stack))
      modifies this`stack, this`state
      ensures Valid() && stack == old(stack)[..|old(stack)| - 1] && Done() == old(Done()) + {k}
      ensures EmittedAmong(Done() + Elements(stack))
    {
      assert stack == stack[..|stack| - 1] + [k];
      stack := stack[..|stack| - 1];
      state := state[k := Visited];
      assert Done() == old(Done()) + {k};
      assert Elements(stack) + {k} == Elements(old(stack));
    }

    method VisitAll(keys: seq<Key>)
      requires Valid() && stack == [] && Done() == {} && diagnostics == [] && EmittedAmong({})
      modifies this
      ensures diagnostics == CycleDiagnostics(accounts, Cycles(parent, keys))
    {
      for i := 0 to |keys|
        invariant Valid() && stack == [] && EmittedAmong(Done())
        invariant Done() == DoneAfter(parent, keys[..i])
        invariant diagnostics == CycleDiagnostics(accounts, Cycles(parent, keys[..i]))
      {
        assert keys[..i + 1][..i] == keys[..i];
        Visit(keys[i]);
        assert Elements(stack) == {};
      }
      assert keys[..|keys|] == keys;
    }
  }

  method ValidateAccountHierarchy(accounts: seq<Account>, accountsToValidate: Option<seq<Account>>,
                                  le: (Account, Account) -> bool)
    returns (diagnostics: seq<Diagnostic>)
    ensures var validated := if accountsToValidate.Some? then accountsToValidate.value else accounts;
            diagnostics == Diagnostics(accounts, validated, le)
  {
    hide SortBy, Dedupe, Cycles, CycleDiagnostics;
    var validated := if accountsToValidate.Some? then accountsToValidate.value else accounts;
    var all := Loaded(accounts, validated, le);
    var parent: map<Key, Key> := map[];
    diagnostics := [];
    for i := 0 to |all|
      invariant parent == Links(all, all[..i])
      invariant diagnostics == LinkDiagnostics(all, Keys(validated), le, all[..i])
    {
      var a := all[i];
      assert all[..i + 1][..i] == all[..i];
      if a.parent.Some? {
        var candidates := SortBy(WithId(all, a.parent.value), le);
        SameElements(candidates, WithId(all, a.parent.value));
        if exists p | p in candidates :: SameScope(a, p) {
          parent := parent[a.key := ParentKey(a)];
        } else if a.key in Keys(validated) {
          diagnostics := diagnostics + [LinkDiagnosis(all, le, a)];
        }
      }
    }
    assert all[..|all|] == all;
    var search := new CycleSearch(parent, all);
    search.VisitAll(KeyList(SortBy(validated, le)));
    diagnostics := diagnostics + search.diagnostics;
  }

  // ---- when there are no diagnostics ----

  lemma DistinctFront(prefix: seq<Account>)
    requires DistinctKeys(prefix) && prefix != []
    ensures DistinctKeys(prefix[..|prefix| - 1]) && prefix[|prefix| - 1].key !in Keys(prefix[..|prefix| - 1])
  {
  }

  /** A link is recorded exactly for the accounts whose parent exists in their scope, and leads to that parent. */
  lemma {:induction false} LinksFacts(all: seq<Account>, prefix: seq<Account>)
    requires DistinctKeys(prefix)
    ensures forall a | a in prefix :: a.key in Links(all, prefix) <==> a.parent.Some? && LinkInScope(all, a)
    ensures forall a | a in prefix && a.key in Links(all, prefix) :: Links(all, prefix)[a.key] == ParentKey(a)
    ensures Links(all, prefix).Keys <= Keys(prefix)
  {
    hide LinkInScope, DistinctKeys;
    if prefix != [] {
      DistinctFront(prefix);
      LinksFacts(all, prefix[..|prefix| - 1]);
      assert prefix == prefix[..|prefix| - 1] + [prefix[|prefix| - 1]];
    }
  }

  lemma ParentExists(all: seq<Account>, a: Account)
    requires a.parent.Some?
    ensures LinkInScope(all, a) <==> ParentKey(a) in Keys(all)
  {
    if LinkInScope(all, a) {
      var p :| p in all && SameScope(a, p) && p.key.id == a.parent.value;
      assert p.key == ParentKey(a);
    }
  }

  /** A link is diagnosed exactly for a validated account whose parent is missing from its scope. */
  lemma {:induction false} LinkDiagnosticsNoneIff(all: seq<Account>, validated: set<Key>,
                                                  le: (Account, Account) -> bool, prefix: seq<Account>)
    ensures LinkDiagnostics(all, validated, le, prefix) == []
            <==> forall a | a in prefix && a.key in validated :: LinkInScope(all, a)
  {
    hide LinkInScope, LinkDiagnosis;
    if prefix != [] {
      LinkDiagnosticsNoneIff(all, validated, le, prefix[..|prefix| - 1]);
      assert prefix == prefix[..|prefix| - 1] + [prefix[|prefix| - 1]];
      if prefix[|prefix| - 1].parent.None? { NoParentInScope(all, prefix[|prefix| - 1]); }
    }
  }

  lemma NoParentInScope(all: seq<Account>, a: Account)
    requires a.parent.None?
    ensures LinkInScope(all, a)
  {
  }

  lemma ValidatedKeys(accounts: seq<Account>, validated: seq<Account>, le: (Account, Account) -> bool)
    ensures DistinctKeys(Loaded(accounts, validated, le))
    ensures Keys(validated) <= Keys(Loaded(accounts, validated, le)) == Keys(accounts) + Keys(validated)
    ensures Elements(KeyList(SortBy(validated, le))) == Keys(validated)
  {
    hide SortBy, Dedupe;
    var all := Loaded(accounts, validated, le);
    DedupeKeepsKeys(accounts + validated);
    SameElements(all, Dedupe(accounts + validated));
    assert Keys(accounts + validated) == Keys(accounts) + Keys(validated);
    assert Keys(all) == Keys(Dedupe(accounts + validated));
    SortedKeepsKeys(Dedupe(accounts + validated), le);
    var sorted := SortBy(validated, le);
    SameElements(sorted, validated);
    assert forall i | 0 <= i < |sorted| :: KeyList(sorted)[i] == sorted[i].key;
    forall k ensures k in Elements(KeyList(sorted)) <==> k in Keys(validated) {
      if k in Keys(validated) {
        var a :| a in validated && a.key == k;
        var i :| 0 <= i < |sorted| && sorted[i] == a;
        assert KeyList(sorted)[i] == k;
      }
    }
  }

  lemma SortedKeepsKeys(accounts: seq<Account>, le: (Account, Account) -> bool)
    requires DistinctKeys(accounts)
    ensures DistinctKeys(SortBy(accounts, le))
  {
    hide SortBy;
    var sorted := SortBy(accounts, le);
    assert Distinct(accounts);
    SortByPermutes(accounts, le);
    forall i, j | 0 <= i < j < |sorted| ensures sorted[i].key != sorted[j].key {
      assert sorted[i] != sorted[j] && sorted[i] in accounts && sorted[j] in accounts;
    }
  }

  /** A validated account is sound: its parent is in scope and its chain of parents ends. */
  ghost predicate Sound(all: seq<Account>, a: Account) {
    LinkInScope(all, a) && ReachesRoot(Links(all, all), a.key)
  }

  /** There are no diagnostics exactly when every validated account is sound. */
  lemma DiagnosticsNoneIff(accounts: seq<Account>, validated: seq<Account>, le: (Account, Account) -> bool)
    ensures Diagnostics(accounts, validated, le) == []
            <==> forall a | a in Loaded(accounts, validated, le) && a.key in Keys(validated) ::
                   Sound(Loaded(accounts, validated, le), a)
  {
    hide SortBy, Loaded, LinkInScope, ReachesRoot, Links, LinkDiagnostics, Cycles;
    var all := Loaded(accounts, validated, le);
    var keys := KeyList(SortBy(validated, le));
    var parent := Links(all, all);
    ValidatedKeys(accounts, validated, le);
    LinkDiagnosticsNoneIff(all, Keys(validated), le, all);
    NoCycleIffRoots(parent, keys);
    assert |Diagnostics(accounts, validated, le)|
           == |LinkDiagnostics(all, Keys(validated), le, all)| + |Cycles(parent, keys)|;
    if AllReachRoots(parent, Keys(validated)) {
      assert forall a | a in all && a.key in Keys(validated) :: ReachesRoot(parent, a.key);
    } else {
      var k :| k in Keys(validated) && !ReachesRoot(parent, k);
      assert k in Keys(all);
      var a :| a in all && a.key == k;
    }
  }

  /** With every account validated, an account's recorded link is its parent reference, so no diagnostics means
      exactly that all references stay in scope and all chains of references end at an account without a parent. */
  lemma WholeHierarchySoundIff(accounts: seq<Account>, le: (Account, Account) -> bool)
    ensures var all := Loaded(accounts, accounts, le);
            && (Diagnostics(accounts, accounts, le) == [] <==> forall a | a in all :: Sound(all, a))
            && (Diagnostics(accounts, accounts, le) == [] ==>
                  forall a | a in all :: (a.parent.Some? <==> a.key in Links(all, all))
                                      && (a.parent.Some? ==> Links(all, all)[a.key] == ParentKey(a)))
  {
    hide SortBy, Loaded, Links, Diagnostics, ReachesRoot;
    var all := Loaded(accounts, accounts, le);
    DiagnosticsNoneIff(accounts, accounts, le);
    ValidatedKeys(accounts, accounts, le);
    assert Keys(all) == Keys(accounts);
    assert forall a | a in all :: a.key in Keys(all);
    LinksFacts(all, all);
  }

  lemma {:induction false} MembersOfKeys(all: seq<Account>, c: seq<Key>)
    requires forall k | k in c :: k in Keys(all)
    ensures |Members(all, c)| == |c|
    ensures forall i | 0 <= i < |c| :: Members(all, c)[i] in all && Members(all, c)[i].key == c[i]
  {
    hide Find, Keys;
    if c != [] {
      assert forall k | k in c[..|c| - 1] :: k in c;
      MembersOfKeys(all, c[..|c| - 1]);
      assert Members(all, c) == Members(all, c[..|c| - 1]) + [Find(all, c[|c| - 1])];
    }
  }

  /** A cycle diagnostic names exactly the cycle's accounts in parent order: none is dropped, each one's parent
      reference is the next one, and so building the diagnostic never fails. */
  lemma CycleDiagnosticNamesCycle(accounts: seq<Account>, validated: seq<Account>, le: (Account, Account) -> bool,
                                  c: seq<Key>)
    requires IsCycle(Links(Loaded(accounts, validated, le), Loaded(accounts, validated, le)), c)
    ensures var m := Members(Loaded(accounts, validated, le), c);
            && KeyList(m) == c
            && (forall i | 0 <= i < |m| :: m[i].parent.Some?)
            && (forall i | 0 <= i < |m| - 1 :: ParentKey(m[i]) == m[i + 1].key)
            && ParentKey(m[|m| - 1]) == m[0].key
  {
    hide Loaded, Links, SortBy, LinkInScope;
    var all := Loaded(accounts, validated, le);
    ValidatedKeys(accounts, validated, le);
    LinksFacts(all, all);
    forall k | k in c ensures k in Keys(all) {
      assert k in Links(all, all).Keys;
    }
    MembersOfKeys(all, c);
    var m := Members(all, c);
    assert forall i | 0 <= i < |m| :: m[i].key in Links(all, all);
  }
}
