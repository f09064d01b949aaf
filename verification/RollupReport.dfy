/** The report builder in place: node lists, the rollup table and the emitted lines, over a validated hierarchy. */
module RollupReport {
  import opened Wrappers
  import opened Orders
  import opened AccountHierarchy
  import opened AccountHierarchyCheck
  import opened RollupForest
  import opened RollupLines

  // ---- the node lists ----

  function Ids(accounts: seq<Account>): set<nat> {
    set a | a in accounts :: a.key.id
  }

  ghost predicate DistinctIds(accounts: seq<Account>) {
    forall i, j | 0 <= i < j < |accounts| :: accounts[i].key.id != accounts[j].key.id
  }

  /** The ids of the accounts whose parent is not a node. */
  function RootIds(accounts: seq<Account>, ids: set<nat>): seq<nat> {
    if accounts == [] then []
    else
      var a := accounts[|accounts| - 1];
      RootIds(accounts[..|accounts| - 1], ids)
      + if a.parent.Some? && a.parent.value in ids then [] else [a.key.id]
  }

  function ChildIds(accounts: seq<Account>, k: nat): seq<nat> {
    if accounts == [] then []
    else
      var a := accounts[|accounts| - 1];
      ChildIds(accounts[..|accounts| - 1], k) + if a.parent == Some(k) then [a.key.id] else []
  }

  function SortedChildren(accounts: seq<Account>, le: (nat, nat) -> bool): map<nat, seq<nat>> {
    map k | k in Ids(accounts) :: SortBy(ChildIds(accounts, k), le)
  }

  function SortedRoots(accounts: seq<Account>, le: (nat, nat) -> bool): seq<nat> {
    SortBy(RootIds(accounts, Ids(accounts)), le)
  }

  /** Links every node below its parent, or among the roots, and then sorts every list. */
  method AccountHierarchyRoots(accounts: seq<Account>, le: (nat, nat) -> bool)
    returns (roots: seq<nat>, children: map<nat, seq<nat>>)
    ensures roots == SortedRoots(accounts, le) && children == SortedChildren(accounts, le)
  {
    hide SortBy, RootIds, ChildIds, Ids;
    var ids := Ids(accounts);
    NoNodes(accounts);
    children := map k | k in ids :: [];
    roots := [];
    for i := 0 to |accounts|
      invariant children.Keys == ids && roots == RootIds(accounts[..i], ids)
      invariant forall k | k in ids :: children[k] == ChildIds(accounts[..i], k)
    {
      var a := accounts[i];
      NextNode(accounts, i);
      if a.parent.Some? && a.parent.value in children {
        children := children[a.parent.value := children[a.parent.value] + [a.key.id]];
      } else {
        roots := roots + [a.key.id];
      }
    }
    assert accounts[..|accounts|] == accounts;
    children := map k | k in children :: SortBy(children[k], le);
    roots := SortBy(roots, le);
  }

  lemma NoNodes(accounts: seq<Account>)
    ensures RootIds(accounts[..0], Ids(accounts)) == [] && forall k: nat :: ChildIds(accounts[..0], k) == []
  {
  }

  lemma NextNode(accounts: seq<Account>, i: nat)
    requires i < |accounts|
    ensures var a := accounts[i];
            && RootIds(accounts[..i + 1], Ids(accounts))
               == RootIds(accounts[..i], Ids(accounts))
                 + (if a.parent.Some? && a.parent.value in Ids(accounts) then [] else [a.key.id])
            && forall k: nat ::
                 ChildIds(accounts[..i + 1], k)
                 == ChildIds(accounts[..i], k) + (if a.parent == Some(k) then [a.key.id] else [])
  {
    assert accounts[..i + 1][..i] == accounts[..i];
  }

  // ---- the node lists are a forest ----

  function WithNodeId(accounts: seq<Account>, k: nat): (a: Account)
    requires k in Ids(accounts)
    ensures a in accounts && a.key.id == k
  {
    if accounts[0].key.id == k then accounts[0] else WithNodeId(accounts[1..], k)
  }

  lemma SameIdSameAccount(accounts: seq<Account>, a: Account, b: Account)
    requires DistinctIds(accounts) && a in accounts && b in accounts && a.key.id == b.key.id
    ensures a == b
  {
  }

  /** The parent of every node that has one. */
  ghost function IdParents(accounts: seq<Account>): map<nat, nat> {
    map k | k in Ids(accounts) && WithNodeId(accounts, k).parent.Some?
      && WithNodeId(accounts, k).parent.value in Ids(accounts)
      :: WithNodeId(accounts, k).parent.value
  }

  lemma IdParentOf(accounts: seq<Account>, a: Account)
    requires DistinctIds(accounts) && a in accounts
    ensures a.key.id in Ids(accounts)
    ensures a.key.id in IdParents(accounts) <==> a.parent.Some? && a.parent.value in Ids(accounts)
    ensures a.key.id in IdParents(accounts) ==> IdParents(accounts)[a.key.id] == a.parent.value
  {
    SameIdSameAccount(accounts, a, WithNodeId(accounts, a.key.id));
  }

  lemma {:induction false} ChildIdsFacts(accounts: seq<Account>, k: nat)
    requires DistinctIds(accounts)
    ensures NoRepeats(ChildIds(accounts, k))
    ensures forall c :: c in ChildIds(accounts, k) <==> exists a | a in accounts :: a.parent == Some(k) && a.key.id == c
  {
    hide DistinctIds;
    if accounts != [] {
      var front := accounts[..|accounts| - 1];
      FrontDistinct(accounts);
      ChildIdsFacts(front, k);
      assert accounts == front + [accounts[|accounts| - 1]];
      SnocNoRepeats(ChildIds(front, k), accounts[|accounts| - 1].key.id);
    }
  }

  lemma SnocNoRepeats(s: seq<nat>, x: nat)
    requires NoRepeats(s)
    ensures x !in s ==> NoRepeats(s + [x])
    ensures NoRepeats(s + [])
  {
    assert s + [] == s;
  }

  lemma {:induction false} RootIdsFacts(accounts: seq<Account>, ids: set<nat>)
    requires DistinctIds(accounts)
    ensures NoRepeats(RootIds(accounts, ids))
    ensures forall c :: c in RootIds(accounts, ids) <==>
              exists a | a in accounts :: !(a.parent.Some? && a.parent.value in ids) && a.key.id == c
  {
    hide DistinctIds;
    if accounts != [] {
      var front := accounts[..|accounts| - 1];
      FrontDistinct(accounts);
      RootIdsFacts(front, ids);
      assert accounts == front + [accounts[|accounts| - 1]];
      SnocNoRepeats(RootIds(front, ids), accounts[|accounts| - 1].key.id);
    }
  }

  lemma FrontDistinct(accounts: seq<Account>)
    requires DistinctIds(accounts) && accounts != []
    ensures DistinctIds(accounts[..|accounts| - 1])
    ensures forall a | a in accounts[..|accounts| - 1] :: a.key.id != accounts[|accounts| - 1].key.id
  {
  }

  lemma SortedNoRepeats(s: seq<nat>, le: (nat, nat) -> bool)
    ensures NoRepeats(s) <==> NoRepeats(SortBy(s, le))
    ensures forall x :: x in SortBy(s, le) <==> x in s
  {
    SortByPermutes(s, le);
    assert NoRepeats(s) <==> Distinct(s);
    assert NoRepeats(SortBy(s, le)) <==> Distinct(SortBy(s, le));
  }

  /** The number of parent links above a node, within a bound on them. */
  function DepthWithin(parent: map<nat, nat>, k: nat, n: nat): nat
    decreases n
  {
    if k in parent && n > 0 then 1 + DepthWithin(parent, parent[k], n - 1) else 0
  }

  lemma {:induction false} DepthSettles(parent: map<nat, nat>, k: nat, n: nat, m: nat)
    requires Ancestor(parent, k, n).None? && n <= m
    ensures DepthWithin(parent, k, n) == DepthWithin(parent, k, m)
    decreases n
  {
    if k in parent { DepthSettles(parent, parent[k], n - 1, m - 1); }
  }

  /** One bound by which every one of the given nodes has passed its root. */
  lemma {:induction false} CommonBound(parent: map<nat, nat>, ks: set<nat>) returns (n: nat)
    requires forall k | k in ks :: ReachesRoot(parent, k)
    ensures forall k | k in ks :: Ancestor(parent, k, n).None?
    decreases ks
  {
    if ks == {} {
      n := 0;
    } else {
      var k :| k in ks;
      var rest := CommonBound(parent, ks - {k});
      var own: nat :| Ancestor(parent, k, own).None?;
      n := rest + own;
      forall x | x in ks ensures Ancestor(parent, x, n).None? {
        if x == k { PastRoot(parent, x, own, n); } else { PastRoot(parent, x, rest, n); }
      }
    }
  }

  lemma {:induction false} PastRoot(parent: map<nat, nat>, k: nat, n: nat, m: nat)
    requires Ancestor(parent, k, n).None? && n <= m
    ensures Ancestor(parent, k, m).None?
    decreases n
  {
    if k in parent { PastRoot(parent, parent[k], n - 1, m - 1); }
  }

  lemma {:induction false} DepthBounded(parent: map<nat, nat>, k: nat, n: nat)
    ensures DepthWithin(parent, k, n) <= n
    decreases n
  {
    if k in parent && n > 0 { DepthBounded(parent, parent[k], n - 1); }
  }

  /** Depths by which every node lies one level below its parent. */
  lemma DepthsExist(parent: map<nat, nat>, ks: set<nat>) returns (depth: map<nat, nat>, height: nat)
    requires forall k | k in ks :: ReachesRoot(parent, k)
    requires forall k | k in ks && k in parent :: parent[k] in ks
    ensures depth.Keys == ks && forall k | k in ks :: depth[k] <= height
    ensures forall k | k in ks :: depth[k] == if k in parent then depth[parent[k]] + 1 else 0
  {
    height := CommonBound(parent, ks);
    depth := map k | k in ks :: DepthWithin(parent, k, height);
    forall k | k in ks
      ensures depth[k] <= height && depth[k] == if k in parent then depth[parent[k]] + 1 else 0
    {
      DepthBounded(parent, k, height);
      if k in parent {
        assert Ancestor(parent, parent[k], height - 1).None?;
        DepthSettles(parent, parent[k], height - 1, height);
      }
    }
  }

  lemma ParentsFacts(accounts: seq<Account>)
    ensures IdParents(accounts).Keys <= Ids(accounts)
    ensures forall k | k in IdParents(accounts) :: IdParents(accounts)[k] in Ids(accounts)
  {
  }

  /** The sorted roots are exactly the nodes without a parent, each once. */
  lemma RootsFacts(accounts: seq<Account>, le: (nat, nat) -> bool)
    requires DistinctIds(accounts)
    ensures NoRepeats(SortedRoots(accounts, le))
    ensures forall r :: r in SortedRoots(accounts, le) <==> r in Ids(accounts) && r !in IdParents(accounts)
  {
    hide SortBy, IdParents, RootIds, NoRepeats, DistinctIds, Ids;
    RootIdsFacts(accounts, Ids(accounts));
    SortedNoRepeats(RootIds(accounts, Ids(accounts)), le);
    forall a | a in accounts
      ensures a.key.id in Ids(accounts)
      ensures a.key.id in IdParents(accounts) <==> a.parent.Some? && a.parent.value in Ids(accounts)
    {
      IdParentOf(accounts, a);
    }
    forall r ensures r in SortedRoots(accounts, le) <==> r in Ids(accounts) && r !in IdParents(accounts) {
      if r in Ids(accounts) { var a := WithNodeId(accounts, r); }
    }
  }

  /** A node's sorted children are exactly the nodes whose parent it is, each once. */
  lemma ChildrenFacts(accounts: seq<Account>, le: (nat, nat) -> bool, p: nat)
    requires DistinctIds(accounts) && p in Ids(accounts)
    ensures var children := SortBy(ChildIds(accounts, p), le);
            && NoRepeats(children)
            && forall c :: c in children <==> c in IdParents(accounts) && IdParents(accounts)[c] == p
  {
    hide SortBy, IdParents, ChildIds, NoRepeats, DistinctIds, Ids;
    ChildIdsFacts(accounts, p);
    SortedNoRepeats(ChildIds(accounts, p), le);
    ParentsFacts(accounts);
    forall a | a in accounts
      ensures a.key.id in IdParents(accounts) <==> a.parent.Some? && a.parent.value in Ids(accounts)
      ensures a.key.id in IdParents(accounts) ==> IdParents(accounts)[a.key.id] == a.parent.value
    {
      IdParentOf(accounts, a);
    }
    forall c
      ensures c in SortBy(ChildIds(accounts, p), le) <==> c in IdParents(accounts) && IdParents(accounts)[c] == p
    {
      if c in IdParents(accounts) { var a := WithNodeId(accounts, c); }
    }
  }

  /** When every chain of parents ends, the sorted node lists are those of a forest. */
  lemma NodeListsAreForest(accounts: seq<Account>, le: (nat, nat) -> bool, f: Forest)
    returns (depth: map<nat, nat>, height: nat)
    requires DistinctIds(accounts) && f.roots == SortedRoots(accounts, le) && f.children == SortedChildren(accounts, le)
    requires forall k | k in Ids(accounts) :: ReachesRoot(IdParents(accounts), k)
    ensures IsForest(f, IdParents(accounts), depth, height)
  {
    hide SortBy, ReachesRoot, IdParents, RootIds, ChildIds, NoRepeats, DistinctIds, SortedRoots, Ids;
    var parent := IdParents(accounts);
    ParentsFacts(accounts);
    RootsFacts(accounts, le);
    depth, height := DepthsExist(parent, Ids(accounts));
    forall p | p in Ids(accounts)
      ensures NoRepeats(f.children[p]) && forall c :: c in f.children[p] <==> c in parent && parent[c] == p
    {
      ChildrenFacts(accounts, le, p);
    }
  }

  // ---- a validated hierarchy has no endless chain ----

  function Scoped(accounts: seq<Account>, tenant: nat, source: Option<nat>): seq<Account> {
    if accounts == [] then []
    else
      var a := accounts[|accounts| - 1];
      Scoped(accounts[..|accounts| - 1], tenant, source)
      + if a.key.tenant == tenant && (source.None? || a.key.source == source.value) then [a] else []
  }

  lemma {:induction false} ScopedFacts(accounts: seq<Account>, tenant: nat, source: Option<nat>)
    ensures forall a :: a in Scoped(accounts, tenant, source)
              <==> a in accounts && a.key.tenant == tenant && (source.None? || a.key.source == source.value)
  {
    if accounts != [] {
      ScopedFacts(accounts[..|accounts| - 1], tenant, source);
      assert accounts == accounts[..|accounts| - 1] + [accounts[|accounts| - 1]];
    }
  }

  /** The node of a validated key is its scoped account, and is sound. */
  lemma ScopedIsSound(accounts: seq<Account>, scoped: seq<Account>, tenant: nat, source: Option<nat>,
                      le: (Account, Account) -> bool, a: Account)
    requires scoped == Scoped(accounts, tenant, source) && DistinctIds(scoped) && a in scoped
    requires Diagnostics(accounts, scoped, le) == []
    ensures a in Loaded(accounts, scoped, le) && Sound(Loaded(accounts, scoped, le), a)
  {
    hide Loaded, Diagnostics, Sound;
    var all := Loaded(accounts, scoped, le);
    ScopedFacts(accounts, tenant, source);
    ValidatedKeys(accounts, scoped, le);
    LoadedAreGiven(accounts, scoped, le);
    assert a.key in Keys(all);
    var b :| b in all && b.key == a.key;
    SameIdSameAccount(scoped, a, b);
    DiagnosticsNoneIff(accounts, scoped, le);
  }

  lemma LoadedAreGiven(accounts: seq<Account>, validated: seq<Account>, le: (Account, Account) -> bool)
    ensures forall a | a in Loaded(accounts, validated, le) :: a in accounts || a in validated
  {
    hide SortBy;
    DedupeKeepsKeys(accounts + validated);
    SameElements(Loaded(accounts, validated, le), Dedupe(accounts + validated));
  }

  /** A node's parent by id is the node of its validated link. */
  lemma LinkedNode(accounts: seq<Account>, scoped: seq<Account>, tenant: nat, source: Option<nat>,
                   le: (Account, Account) -> bool, a: Account)
    returns (p: Account)
    requires scoped == Scoped(accounts, tenant, source) && DistinctIds(scoped) && a in scoped
    requires Diagnostics(accounts, scoped, le) == [] && a.key.id in IdParents(scoped)
    ensures p in scoped && p.key.id == IdParents(scoped)[a.key.id]
    ensures var links := Links(Loaded(accounts, scoped, le), Loaded(accounts, scoped, le));
            a.key in links && links[a.key] == p.key
  {
    hide Loaded, Diagnostics, Links, IdParents, DistinctIds, DistinctKeys, ReachesRoot, LinkInScope;
    var all := Loaded(accounts, scoped, le);
    ScopedIsSound(accounts, scoped, tenant, source, le, a);
    IdParentOf(scoped, a);
    ValidatedKeys(accounts, scoped, le);
    LinksFacts(all, all);
    ParentExists(all, a);
    LoadedAreGiven(accounts, scoped, le);
    ScopedFacts(accounts, tenant, source);
    p :| p in all && p.key == ParentKey(a);
  }

  /** A node's chain of parents by id follows its chain of validated links. */
  lemma {:induction false} IdChainEnds(accounts: seq<Account>, scoped: seq<Account>, tenant: nat, source: Option<nat>,
                                       le: (Account, Account) -> bool, a: Account, n: nat)
    requires scoped == Scoped(accounts, tenant, source) && DistinctIds(scoped) && a in scoped
    requires Diagnostics(accounts, scoped, le) == []
    requires var all := Loaded(accounts, scoped, le); Ancestor(Links(all, all), a.key, n).None?
    ensures Ancestor(IdParents(scoped), a.key.id, n).None?
    decreases n
  {
    hide Loaded, Diagnostics, Links, IdParents, DistinctIds, Scoped;
    if a.key.id in IdParents(scoped) {
      var p := LinkedNode(accounts, scoped, tenant, source, le, a);
      IdChainEnds(accounts, scoped, tenant, source, le, p, n - 1);
    }
  }

  lemma ValidatedChainsEnd(accounts: seq<Account>, scoped: seq<Account>, tenant: nat, source: Option<nat>,
                           le: (Account, Account) -> bool)
    requires scoped == Scoped(accounts, tenant, source) && DistinctIds(scoped)
             && Diagnostics(accounts, scoped, le) == []
    ensures forall k | k in Ids(scoped) :: ReachesRoot(IdParents(scoped), k)
  {
    hide Loaded, Diagnostics, Links, IdParents, DistinctIds, LinkInScope;
    forall k | k in Ids(scoped) ensures ReachesRoot(IdParents(scoped), k) {
      var a := WithNodeId(scoped, k);
      ScopedIsSound(accounts, scoped, tenant, source, le, a);
      var all := Loaded(accounts, scoped, le);
      var n: nat :| Ancestor(Links(all, all), a.key, n).None?;
      IdChainEnds(accounts, scoped, tenant, source, le, a, n);
    }
  }

  // ---- the builder ----

  class Builder {
    const forest: Forest
    var rollups: map<nat, Rollup>
    var lines: seq<Line>

    constructor (forest: Forest)
      ensures this.forest == forest && rollups == map[] && lines == []
    {
      this.forest, rollups, lines := forest, map[], [];
    }

    /** Every stored rollup is its account's. */
    ghost predicate Correct(depth: map<nat, nat>, height: nat)
      reads this`rollups
      requires Layered(forest, depth, height)
    {
      forall k | k in rollups :: k in forest.children && rollups[k] == RollupOf(forest, depth, height, k)
    }

    /** Computes a node's rollup after its children's, storing one for every node of its subtree. */
    method BuildRollup(k: nat, ghost depth: map<nat, nat>, ghost height: nat) returns (r: Rollup)
      requires Layered(forest, depth, height) && k in forest.children && Correct(depth, height)
      modifies this`rollups
      ensures r == RollupOf(forest, depth, height, k)
      ensures Correct(depth, height) && rollups.Keys == old(rollups.Keys) + Subtree(forest, depth, height, k)
      decreases height - depth[k], 1
    {
      hide Layered, AtLevel, Combine;
      LayeredNode(forest, depth, height, k);
      ChildrenAtLevel(forest, depth, height, k);
      var rs := BuildRollups(forest.children[k], depth, height, depth[k] + 1);
      r := Combine(k, if k in forest.direct then Some(forest.direct[k]) else None, rs, forest.includeZero);
      rollups := rollups[k := r];
    }

    method BuildRollups(ks: seq<nat>, ghost depth: map<nat, nat>, ghost height: nat, ghost level: nat)
      returns (rs: seq<Rollup>)
      requires Layered(forest, depth, height) && AtLevel(forest, depth, ks, level) && Correct(depth, height)
      modifies this`rollups
      ensures rs == RollupsOf(forest, depth, height, ks, level)
      ensures Correct(depth, height) && rollups.Keys == old(rollups.Keys) + Subtrees(forest, depth, height, ks, level)
      decreases height - level + 1, 0
    {
      hide Layered, AtLevel, Correct, RollupOf;
      rs := [];
      PrefixAtLevel(forest, depth, ks, level, 0);
      for i := 0 to |ks|
        invariant AtLevel(forest, depth, ks[..i], level) && Correct(depth, height)
        invariant rs == RollupsOf(forest, depth, height, ks[..i], level)
        invariant rollups.Keys == old(rollups.Keys) + Subtrees(forest, depth, height, ks[..i], level)
      {
        PrefixAtLevel(forest, depth, ks, level, i + 1);
        assert ks[..i + 1][..i] == ks[..i];
        LevelOf(forest, depth, ks, level, ks[i]);
        LayeredNode(forest, depth, height, ks[i]);
        var r := BuildRollup(ks[i], depth, height);
        rs := rs + [r];
      }
      assert ks[..|ks|] == ks;
    }

    /** Appends the lines of sibling nodes; every rollup it needs was built. */
    method CollectRollupLines(ks: seq<nat>, above: Option<nat>, ghost depth: map<nat, nat>, ghost height: nat,
                              ghost level: nat)
      requires Layered(forest, depth, height) && AtLevel(forest, depth, ks, level) && Correct(depth, height)
      requires Subtrees(forest, depth, height, ks, level) <= rollups.Keys
      modifies this`lines
      ensures lines == old(lines) + LinesOf(forest, depth, height, ks, level, above)
      decreases height - level + 1
    {
      hide Layered, AtLevel, RollupOf, Subtree, Subtrees;
      PrefixAtLevel(forest, depth, ks, level, 0);
      for i := 0 to |ks|
        invariant AtLevel(forest, depth, ks[..i], level)
        invariant lines == old(lines) + LinesOf(forest, depth, height, ks[..i], level, above)
      {
        var k := ks[i];
        PrefixAtLevel(forest, depth, ks, level, i + 1);
        assert ks[..i + 1][..i] == ks[..i];
        LevelOf(forest, depth, ks, level, k);
        LayeredNode(forest, depth, height, k);
        ChildrenAtLevel(forest, depth, height, k);
        SubtreeInSubtrees(forest, depth, height, ks, level, k);
        SubtreeParts(forest, depth, height, k);
        if rollups[k].visible {
          lines := lines + [Line(k, above, rollups[k])];
          CollectRollupLines(forest.children[k], Some(k), depth, height, level + 1);
        }
      }
      assert ks[..|ks|] == ks;
    }
  }

  lemma SubtreeParts(f: Forest, depth: map<nat, nat>, height: nat, k: nat)
    requires Layered(f, depth, height) && k in f.children
    ensures k in depth && AtLevel(f, depth, f.children[k], depth[k] + 1)
    ensures Subtree(f, depth, height, k) == {k} + Subtrees(f, depth, height, f.children[k], depth[k] + 1)
  {
  }

  lemma PrefixAtLevel(f: Forest, depth: map<nat, nat>, ks: seq<nat>, level: nat, i: nat)
    requires AtLevel(f, depth, ks, level) && i <= |ks|
    ensures AtLevel(f, depth, ks[..i], level)
  {
    assert forall k | k in ks[..i] :: k in ks;
  }

  // ---- the whole operation ----

  datatype Refusal = DuplicateAccount | InvalidHierarchy | DuplicateAmount | MissingAccount

  /** The amounts by account id, unless an account is given two. */
  function AmountMap(amounts: seq<(nat, Direct)>): Option<map<nat, Direct>> {
    if amounts == [] then Some(map[])
    else
      var front := AmountMap(amounts[..|amounts| - 1]);
      var (id, d) := amounts[|amounts| - 1];
      if front.None? || id in front.value then None else Some(front.value[id := d])
  }

  /** No account is given two amounts. */
  ghost predicate AmountsOnce(amounts: seq<(nat, Direct)>) {
    forall i, j | 0 <= i < j < |amounts| :: amounts[i].0 != amounts[j].0
  }

  lemma {:induction false} AmountMapFacts(amounts: seq<(nat, Direct)>)
    ensures AmountMap(amounts).Some? <==> AmountsOnce(amounts)
    ensures AmountMap(amounts).Some? ==>
              && (forall id :: id in AmountMap(amounts).value <==> exists i :: 0 <= i < |amounts| && amounts[i].0 == id)
              && forall i | 0 <= i < |amounts| :: AmountMap(amounts).value[amounts[i].0] == amounts[i].1
  {
    if amounts != [] {
      var front, last := amounts[..|amounts| - 1], amounts[|amounts| - 1];
      AmountMapFacts(front);
      assert forall i | 0 <= i < |front| :: amounts[i] == front[i];
      if AmountMap(front).Some? && last.0 in AmountMap(front).value {
        var i :| 0 <= i < |front| && front[i].0 == last.0;
        assert amounts[i].0 == amounts[|amounts| - 1].0;
      }
    }
  }

  /** The lines are those of the accounts' forest, so all of the report laws hold of them. */
  ghost predicate IsReport(f: Forest, parent: map<nat, nat>, lines: seq<Line>) {
    exists depth: map<nat, nat>, height: nat ::
      && IsForest(f, parent, depth, height) && Layered(f, depth, height)
      && ReportIsComplete(f, parent, depth, height, lines)
  }

  method BuildAccountHierarchyRollupLines(
    tenant: nat, source: Option<nat>, accounts: seq<Account>, amounts: seq<(nat, Direct)>, includeZero: bool,
    leAccounts: (Account, Account) -> bool, leNodes: (nat, nat) -> bool) returns (r: Result<seq<Line>, Refusal>)
    ensures var scoped := Scoped(accounts, tenant, source);
            var once := forall i, j | 0 <= i < j < |scoped| :: scoped[i].key.id != scoped[j].key.id;
            var sound := once && Diagnostics(accounts, scoped, leAccounts) == [];
            var known := forall i | 0 <= i < |amounts| :: amounts[i].0 in Ids(scoped);
            && (r == Err(DuplicateAccount) <==> !once)
            && (r == Err(InvalidHierarchy) <==> once && !sound)
            && (r == Err(DuplicateAmount) <==> sound && !AmountsOnce(amounts))
            && (r == Err(MissingAccount) <==> sound && AmountsOnce(amounts) && !known)
            && (r.Ok? <==> sound && AmountsOnce(amounts) && known)
            && (r.Ok? ==> AmountMap(amounts).Some? && IsReport(
                  Forest(SortedRoots(scoped, leNodes), SortedChildren(scoped, leNodes), AmountMap(amounts).value,
                         includeZero),
                  IdParents(scoped), r.value))
  {
    hide Scoped, Diagnostics, IdParents, SortedRoots, SortedChildren, Ids, Layered, AtLevel, IsForest, ReportIsComplete,
      DistinctIds;
    var scoped := ScopedAccounts(accounts, tenant, source);
    var distinct := HasDistinctIds(scoped);
    if !distinct { return Err(DuplicateAccount); }
    var diagnostics := ValidateAccountHierarchy(accounts, Some(scoped), leAccounts);
    if diagnostics != [] { return Err(InvalidHierarchy); }
    var direct := AmountMap(amounts);
    AmountMapFacts(amounts);
    assert forall i | 0 <= i < |amounts| && direct.Some? :: amounts[i].0 in direct.value;
    if direct.None? { return Err(DuplicateAmount); }
    if !(direct.value.Keys <= Ids(scoped)) { return Err(MissingAccount); }
    var roots, children := AccountHierarchyRoots(scoped, leNodes);
    var forest := Forest(roots, children, direct.value, includeZero);
    ValidatedChainsEnd(accounts, scoped, tenant, source, leAccounts);
    ghost var depth, height := NodeListsAreForest(scoped, leNodes, forest);
    ghost var parent := IdParents(scoped);
    ForestIsLayered(forest, IdParents(scoped), depth, height);
    var lines := EmitLines(forest, IdParents(scoped), depth, height);
    return Ok(lines);
  }

  /** Builds every root's rollup and then collects the lines. */
  method EmitLines(forest: Forest, ghost parent: map<nat, nat>, ghost depth: map<nat, nat>, ghost height: nat)
    returns (lines: seq<Line>)
    requires IsForest(forest, parent, depth, height) && Layered(forest, depth, height)
             && AtLevel(forest, depth, forest.roots, 0)
    ensures ReportIsComplete(forest, parent, depth, height, lines)
  {
    hide Layered, AtLevel, IsForest, ReportIsComplete, LinesOf, RollupsOf, Subtrees;
    var builder := new Builder(forest);
    var _ := builder.BuildRollups(forest.roots, depth, height, 0);
    builder.CollectRollupLines(forest.roots, None, depth, height, 0);
    ReportLinesComplete(forest, parent, depth, height);
    lines := builder.lines;
    assert lines == LinesOf(forest, depth, height, forest.roots, 0, None);
  }

  method ScopedAccounts(accounts: seq<Account>, tenant: nat, source: Option<nat>) returns (scoped: seq<Account>)
    ensures scoped == Scoped(accounts, tenant, source)
  {
    scoped := [];
    for i := 0 to |accounts|
      invariant scoped == Scoped(accounts[..i], tenant, source)
    {
      var a := accounts[i];
      assert accounts[..i + 1][..i] == accounts[..i];
      if a.key.tenant == tenant && (source.None? || a.key.source == source.value) { scoped := scoped + [a]; }
    }
    assert accounts[..|accounts|] == accounts;
  }

  method HasDistinctIds(accounts: seq<Account>) returns (distinct: bool)
    ensures distinct <==> forall i, j | 0 <= i < j < |accounts| :: accounts[i].key.id != accounts[j].key.id
    ensures distinct ==> DistinctIds(accounts)
  {
    var seen: set<nat> := {};
    for i := 0 to |accounts|
      invariant DistinctIds(accounts[..i]) && seen == Ids(accounts[..i])
    {
      var a := accounts[i];
      assert accounts[..i + 1] == accounts[..i] + [a];
      if a.key.id in seen {
        var j :| 0 <= j < i && accounts[j].key.id == a.key.id;
        return false;
      }
      seen := seen + {a.key.id};
    }
    assert accounts[..|accounts|] == accounts;
    return true;
  }
}
