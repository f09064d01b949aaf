/** What rollups and lines mean: amounts summed once over subtrees, nothing nonzero hidden, parents before children. */
module RollupLaws {
  import opened Sums
  import opened RollupForest

  // ---- amounts ----

  ghost function DirectAmount(f: Forest): nat -> int {
    (x: nat) => AmountOf(DirectOf(f, x))
  }

  /** A rollup's amount is the sum of the direct amounts over its subtree, each counted once. */
  lemma {:induction false} AmountIsSubtreeSum(f: Forest, parent: map<nat, nat>, depth: map<nat, nat>, height: nat,
                                              k: nat)
    requires IsForest(f, parent, depth, height) && Layered(f, depth, height) && k in f.children
    ensures RollupOf(f, depth, height, k).amount == SumOver(Subtree(f, depth, height, k), DirectAmount(f))
    decreases if k in depth then height - depth[k] else 0, 1, 0
  {
    hide IsForest, Layered, AtLevel, NoRepeats;
    LayeredNode(f, depth, height, k);
    ChildrenAtLevel(f, depth, height, k);
    ChildLists(f, parent, depth, height, k);
    var ks := f.children[k];
    AmountsAreSubtreeSums(f, parent, depth, height, ks, depth[k] + 1);
    NotUnderChildren(f, parent, depth, height, k);
    SumOverUnion({k}, Subtrees(f, depth, height, ks, depth[k] + 1), DirectAmount(f));
    SumOverRemove({k}, DirectAmount(f), k);
    assert {k} - {k} == {};
  }

  lemma ChildLists(f: Forest, parent: map<nat, nat>, depth: map<nat, nat>, height: nat, k: nat)
    requires IsForest(f, parent, depth, height) && k in f.children
    ensures NoRepeats(f.children[k])
  {
  }

  lemma NotUnderChildren(f: Forest, parent: map<nat, nat>, depth: map<nat, nat>, height: nat, k: nat)
    requires IsForest(f, parent, depth, height) && Layered(f, depth, height) && k in f.children
    ensures k in depth && AtLevel(f, depth, f.children[k], depth[k] + 1)
    ensures k !in Subtrees(f, depth, height, f.children[k], depth[k] + 1)
  {
    hide IsForest, Layered, AtLevel;
    LayeredNode(f, depth, height, k);
    ChildrenAtLevel(f, depth, height, k);
    forall x | x in Subtrees(f, depth, height, f.children[k], depth[k] + 1) ensures x in depth && depth[x] > depth[k] {
      var c := SubtreesAreUnder(f, parent, depth, height, f.children[k], depth[k] + 1, x);
      LevelOf(f, depth, f.children[k], depth[k] + 1, c);
    }
  }

  lemma {:induction false} AmountsAreSubtreeSums(f: Forest, parent: map<nat, nat>, depth: map<nat, nat>, height: nat,
                                                 ks: seq<nat>, level: nat)
    requires IsForest(f, parent, depth, height) && Layered(f, depth, height) && AtLevel(f, depth, ks, level)
             && NoRepeats(ks)
    ensures Amounts(RollupsOf(f, depth, height, ks, level))
            == SumOver(Subtrees(f, depth, height, ks, level), DirectAmount(f))
    decreases if level <= height + 1 then height - level + 1 else 0, 0, |ks|
  {
    hide IsForest, Layered, AtLevel, NoRepeats;
    if ks != [] {
      var front, k := ks[..|ks| - 1], ks[|ks| - 1];
      FrontAtLevel(f, depth, ks, level);
      FrontNoRepeats(ks);
      LayeredNode(f, depth, height, k);
      AmountsAreSubtreeSums(f, parent, depth, height, front, level);
      AmountIsSubtreeSum(f, parent, depth, height, k);
      assert ks == front + [k];
      SubtreesDisjoint(f, parent, depth, height, front, level, k);
      SumOverUnion(Subtrees(f, depth, height, front, level), Subtree(f, depth, height, k), DirectAmount(f));
      var rs := RollupsOf(f, depth, height, front, level);
      assert (rs + [RollupOf(f, depth, height, k)])[..|rs|] == rs;
    }
  }

  lemma FrontNoRepeats(ks: seq<nat>)
    requires NoRepeats(ks) && ks != []
    ensures NoRepeats(ks[..|ks| - 1])
  {
  }

  /** The roots' rollups sum to everything supplied. */
  lemma RootAmountsAreTotal(f: Forest, parent: map<nat, nat>, depth: map<nat, nat>, height: nat)
    requires IsForest(f, parent, depth, height) && Layered(f, depth, height) && AtLevel(f, depth, f.roots, 0)
    ensures Amounts(RollupsOf(f, depth, height, f.roots, 0)) == SumOver(f.children.Keys, DirectAmount(f))
  {
    AmountsAreSubtreeSums(f, parent, depth, height, f.roots, 0);
    RootsCoverAll(f, parent, depth, height);
  }

  lemma {:induction false} RollupsAt(f: Forest, depth: map<nat, nat>, height: nat, ks: seq<nat>, level: nat, i: nat)
    requires Layered(f, depth, height) && AtLevel(f, depth, ks, level) && i < |ks|
    ensures ks[i] in f.children && RollupsOf(f, depth, height, ks, level)[i] == RollupOf(f, depth, height, ks[i])
    decreases |ks|
  {
    hide Layered, AtLevel;
    FrontAtLevel(f, depth, ks, level);
    if i < |ks| - 1 {
      RollupsAt(f, depth, height, ks[..|ks| - 1], level, i);
    }
  }

  // ---- visibility ----

  ghost predicate Visible(f: Forest, depth: map<nat, nat>, height: nat, k: nat)
    requires Layered(f, depth, height)
  {
    k in f.children && RollupOf(f, depth, height, k).visible
  }

  /** A node has something of its own to show: a nonzero subtree amount or direct evidence. */
  ghost predicate Shows(f: Forest, depth: map<nat, nat>, height: nat, k: nat)
    requires Layered(f, depth, height)
  {
    && k in f.children
    && (f.includeZero || RollupOf(f, depth, height, k).amount != 0
        || PostingsOf(DirectOf(f, k)) != {} || RefsOf(DirectOf(f, k)) != [])
  }

  /** A node is visible exactly when some node of its subtree has something to show. */
  lemma {:induction false} VisibleIffShows(f: Forest, depth: map<nat, nat>, height: nat, k: nat)
    requires Layered(f, depth, height) && k in f.children
    ensures Visible(f, depth, height, k) <==> exists x | x in Subtree(f, depth, height, k) :: Shows(f, depth, height, x)
    decreases if k in depth then height - depth[k] else 0, 1, 0
  {
    hide Layered, AtLevel;
    LayeredNode(f, depth, height, k);
    ChildrenAtLevel(f, depth, height, k);
    AnyVisibleIffShows(f, depth, height, f.children[k], depth[k] + 1);
    var rs := RollupsOf(f, depth, height, f.children[k], depth[k] + 1);
    assert Visible(f, depth, height, k) <==> Shows(f, depth, height, k) || exists r | r in rs :: r.visible;
  }

  lemma {:induction false} AnyVisibleIffShows(f: Forest, depth: map<nat, nat>, height: nat, ks: seq<nat>, level: nat)
    requires Layered(f, depth, height) && AtLevel(f, depth, ks, level)
    ensures (exists r | r in RollupsOf(f, depth, height, ks, level) :: r.visible)
            <==> exists x | x in Subtrees(f, depth, height, ks, level) :: Shows(f, depth, height, x)
    decreases if level <= height + 1 then height - level + 1 else 0, 0, |ks|
  {
    hide Layered, AtLevel, Shows;
    if ks != [] {
      FrontAtLevel(f, depth, ks, level);
      LayeredNode(f, depth, height, ks[|ks| - 1]);
      AnyVisibleIffShows(f, depth, height, ks[..|ks| - 1], level);
      VisibleIffShows(f, depth, height, ks[|ks| - 1]);
    }
  }

  lemma {:induction false} SomeAmountNonzero(rs: seq<Rollup>) returns (i: nat)
    requires Amounts(rs) != 0
    ensures i < |rs| && rs[i].amount != 0
  {
    if rs[|rs| - 1].amount != 0 {
      i := |rs| - 1;
    } else {
      i := SomeAmountNonzero(rs[..|rs| - 1]);
    }
  }

  /** An account with a nonzero direct amount is never hidden, even when its subtree cancels to zero. */
  lemma NonzeroIsVisible(f: Forest, depth: map<nat, nat>, height: nat, k: nat)
    requires Layered(f, depth, height) && k in f.children && AmountOf(DirectOf(f, k)) != 0
    ensures Visible(f, depth, height, k)
  {
    hide Layered, AtLevel;
    LayeredNode(f, depth, height, k);
    ChildrenAtLevel(f, depth, height, k);
    var rs := RollupsOf(f, depth, height, f.children[k], depth[k] + 1);
    if Amounts(rs) != 0 {
      var i := SomeAmountNonzero(rs);
      RollupsAt(f, depth, height, f.children[k], depth[k] + 1, i);
      assert rs[i] in rs && rs[i].visible;
    }
  }

  /** A visible account's parent is visible. */
  lemma ParentIsVisible(f: Forest, parent: map<nat, nat>, depth: map<nat, nat>, height: nat, k: nat)
    requires IsForest(f, parent, depth, height) && Layered(f, depth, height) && k in parent
             && Visible(f, depth, height, k)
    ensures Visible(f, depth, height, parent[k])
  {
    hide IsForest, Layered, AtLevel;
    ParentNode(f, parent, depth, height, k);
    var p := parent[k];
    ForestLink(f, parent, depth, height, p, k);
    LayeredNode(f, depth, height, p);
    ChildrenAtLevel(f, depth, height, p);
    var i :| 0 <= i < |f.children[p]| && f.children[p][i] == k;
    RollupsAt(f, depth, height, f.children[p], depth[p] + 1, i);
    var below := RollupsOf(f, depth, height, f.children[p], depth[p] + 1);
    assert below[i] in below;
  }

  lemma ParentNode(f: Forest, parent: map<nat, nat>, depth: map<nat, nat>, height: nat, k: nat)
    requires IsForest(f, parent, depth, height) && k in parent
    ensures k in f.children && parent[k] in f.children
  {
  }

  // ---- evidence ----

  /** A rollup's postings are exactly those supplied directly in its subtree. */
  lemma {:induction false} PostingsAreSubtrees(f: Forest, depth: map<nat, nat>, height: nat, k: nat, p: nat)
    requires Layered(f, depth, height) && k in f.children
    ensures p in RollupOf(f, depth, height, k).postings
            <==> exists x | x in Subtree(f, depth, height, k) :: p in PostingsOf(DirectOf(f, x))
    decreases if k in depth then height - depth[k] else 0, 1, 0
  {
    hide Layered, AtLevel, PostingsOf;
    LayeredNode(f, depth, height, k);
    ChildrenAtLevel(f, depth, height, k);
    AnyPostingIsSubtrees(f, depth, height, f.children[k], depth[k] + 1, p);
  }

  lemma {:induction false} AnyPostingIsSubtrees(f: Forest, depth: map<nat, nat>, height: nat, ks: seq<nat>, level: nat,
                                                p: nat)
    requires Layered(f, depth, height) && AtLevel(f, depth, ks, level)
    ensures (exists r | r in RollupsOf(f, depth, height, ks, level) :: p in r.postings)
            <==> exists x | x in Subtrees(f, depth, height, ks, level) :: p in PostingsOf(DirectOf(f, x))
    decreases if level <= height + 1 then height - level + 1 else 0, 0, |ks|
  {
    hide Layered, AtLevel, PostingsOf;
    if ks != [] {
      FrontAtLevel(f, depth, ks, level);
      LayeredNode(f, depth, height, ks[|ks| - 1]);
      AnyPostingIsSubtrees(f, depth, height, ks[..|ks| - 1], level, p);
      PostingsAreSubtrees(f, depth, height, ks[|ks| - 1], p);
    }
  }

  /** A rollup's account list is the account itself with the visible accounts of its subtree. */
  lemma {:induction false} AccountsAreVisibleSubtree(f: Forest, depth: map<nat, nat>, height: nat, k: nat, a: nat)
    requires Layered(f, depth, height) && k in f.children
    ensures a in RollupOf(f, depth, height, k).accounts
            <==> a == k || (a in Subtree(f, depth, height, k) && Visible(f, depth, height, a))
    decreases if k in depth then height - depth[k] else 0, 1, 0
  {
    hide Layered, AtLevel, Visible;
    LayeredNode(f, depth, height, k);
    ChildrenAtLevel(f, depth, height, k);
    AnyAccountIsVisible(f, depth, height, f.children[k], depth[k] + 1, a);
  }

  lemma {:induction false} AnyAccountIsVisible(f: Forest, depth: map<nat, nat>, height: nat, ks: seq<nat>, level: nat,
                                               a: nat)
    requires Layered(f, depth, height) && AtLevel(f, depth, ks, level)
    ensures (exists r | r in RollupsOf(f, depth, height, ks, level) :: r.visible && a in r.accounts)
            <==> a in Subtrees(f, depth, height, ks, level) && Visible(f, depth, height, a)
    decreases if level <= height + 1 then height - level + 1 else 0, 0, |ks|
  {
    hide Layered, AtLevel;
    if ks != [] {
      var k := ks[|ks| - 1];
      FrontAtLevel(f, depth, ks, level);
      LayeredNode(f, depth, height, k);
      AnyAccountIsVisible(f, depth, height, ks[..|ks| - 1], level, a);
      AccountsAreVisibleSubtree(f, depth, height, k, a);
      if a in Subtree(f, depth, height, k) && Visible(f, depth, height, a) {
        VisibleAbove(f, depth, height, k, a);
      }
    }
  }

  /** Every account above a visible one is visible. */
  lemma VisibleAbove(f: Forest, depth: map<nat, nat>, height: nat, k: nat, a: nat)
    requires Layered(f, depth, height) && k in f.children && a in Subtree(f, depth, height, k)
             && Visible(f, depth, height, a)
    ensures Visible(f, depth, height, k)
  {
    hide Layered, AtLevel, Visible, Shows;
    VisibleIsNode(f, depth, height, a);
    VisibleIffShows(f, depth, height, a);
    VisibleIffShows(f, depth, height, k);
    SubtreeOfMember(f, depth, height, k, a);
  }

  lemma VisibleIsNode(f: Forest, depth: map<nat, nat>, height: nat, k: nat)
    requires Layered(f, depth, height) && Visible(f, depth, height, k)
    ensures k in f.children
  {
  }

  lemma {:induction false} SubtreeOfMember(f: Forest, depth: map<nat, nat>, height: nat, k: nat, a: nat)
    requires Layered(f, depth, height) && k in f.children && a in Subtree(f, depth, height, k)
    ensures a in f.children && Subtree(f, depth, height, a) <= Subtree(f, depth, height, k)
    decreases if k in depth then height - depth[k] else 0, 1, 0
  {
    hide Layered, AtLevel;
    LayeredNode(f, depth, height, k);
    if a != k {
      ChildrenAtLevel(f, depth, height, k);
      SubtreesOfMember(f, depth, height, f.children[k], depth[k] + 1, a);
    }
  }

  lemma {:induction false} SubtreesOfMember(f: Forest, depth: map<nat, nat>, height: nat, ks: seq<nat>, level: nat,
                                            a: nat)
    requires Layered(f, depth, height) && AtLevel(f, depth, ks, level) && a in Subtrees(f, depth, height, ks, level)
    ensures a in f.children && Subtree(f, depth, height, a) <= Subtrees(f, depth, height, ks, level)
    decreases if level <= height + 1 then height - level + 1 else 0, 0, |ks|
  {
    hide Layered, AtLevel;
    FrontAtLevel(f, depth, ks, level);
    LayeredNode(f, depth, height, ks[|ks| - 1]);
    if a in Subtree(f, depth, height, ks[|ks| - 1]) {
      SubtreeOfMember(f, depth, height, ks[|ks| - 1], a);
    } else {
      SubtreesOfMember(f, depth, height, ks[..|ks| - 1], level, a);
    }
  }
}
