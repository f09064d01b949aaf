/** A rollup's source references are those supplied in its subtree, as often as they were supplied
    (src/account-hierarchy-rollup-lines.ts). */
module RollupRefs {
  import opened Sums
  import opened Wrappers
  import opened RollupForest
  import opened RollupLaws

  function Occurrences(s: seq<nat>, x: nat): nat {
    multiset(s)[x]
  }

  /** How often an account's own evidence lists a reference. */
  ghost function RefCount(f: Forest, ref: nat): nat -> int {
    (x: nat) => Occurrences(RefsOf(DirectOf(f, x)), ref)
  }

  function RefLists(rs: seq<Rollup>): (ss: seq<seq<nat>>)
    ensures |ss| == |rs| && forall i | 0 <= i < |rs| :: ss[i] == rs[i].refs
  {
    seq(|rs|, i requires 0 <= i < |rs| => rs[i].refs)
  }

  lemma CountOfJoined(a: seq<nat>, b: seq<nat>, x: nat)
    ensures Occurrences(a + b, x) == Occurrences(a, x) + Occurrences(b, x)
  {
  }

  lemma CombinedRefs(k: nat, d: Option<Direct>, rs: seq<Rollup>, includeZero: bool)
    ensures Combine(k, d, rs, includeZero).refs == RefsOf(d) + Flatten(RefLists(rs))
  {
    assert RefLists(rs) == seq(|rs|, i requires 0 <= i < |rs| => rs[i].refs);
  }

  lemma NodeRefs(f: Forest, depth: map<nat, nat>, height: nat, k: nat, ref: nat)
    requires Layered(f, depth, height) && k in f.children
    ensures k in depth && AtLevel(f, depth, f.children[k], depth[k] + 1)
    ensures Occurrences(RollupOf(f, depth, height, k).refs, ref)
            == RefCount(f, ref)(k)
               + Occurrences(Flatten(RefLists(RollupsOf(f, depth, height, f.children[k], depth[k] + 1))), ref)
  {
    hide Combine, RefsOf, Flatten;
    var rs := RollupsOf(f, depth, height, f.children[k], depth[k] + 1);
    assert RollupOf(f, depth, height, k) == Combine(k, DirectOf(f, k), rs, f.includeZero);
    assert RefCount(f, ref)(k) == Occurrences(RefsOf(DirectOf(f, k)), ref);
    CombinedRefs(k, DirectOf(f, k), rs, f.includeZero);
    CountOfJoined(RefsOf(DirectOf(f, k)), Flatten(RefLists(rs)), ref);
  }

  /** Every reference occurs in a rollup as often as in the evidence of its subtree, each account counted once. */
  lemma {:induction false} RefsAreSubtrees(f: Forest, parent: map<nat, nat>, depth: map<nat, nat>, height: nat, k: nat,
                                           ref: nat)
    requires IsForest(f, parent, depth, height) && Layered(f, depth, height) && k in f.children
    ensures Occurrences(RollupOf(f, depth, height, k).refs, ref)
            == SumOver(Subtree(f, depth, height, k), RefCount(f, ref))
    decreases if k in depth then height - depth[k] else 0, 1, 0
  {
    hide IsForest, Layered, AtLevel, NoRepeats, RollupOf, RollupsOf, Flatten, RefCount;
    LayeredNode(f, depth, height, k);
    NodeRefs(f, depth, height, k, ref);
    ChildLists(f, parent, depth, height, k);
    var ks := f.children[k];
    RefsOfListsAreSubtrees(f, parent, depth, height, ks, depth[k] + 1, ref);
    NotUnderChildren(f, parent, depth, height, k);
    SumOverUnion({k}, Subtrees(f, depth, height, ks, depth[k] + 1), RefCount(f, ref));
    SumOverRemove({k}, RefCount(f, ref), k);
    assert {k} - {k} == {};
  }

  lemma ListRefs(f: Forest, depth: map<nat, nat>, height: nat, ks: seq<nat>, level: nat, ref: nat)
    requires Layered(f, depth, height) && AtLevel(f, depth, ks, level) && ks != []
    ensures AtLevel(f, depth, ks[..|ks| - 1], level) && ks[|ks| - 1] in f.children
    ensures Occurrences(Flatten(RefLists(RollupsOf(f, depth, height, ks, level))), ref)
            == Occurrences(Flatten(RefLists(RollupsOf(f, depth, height, ks[..|ks| - 1], level))), ref)
               + Occurrences(RollupOf(f, depth, height, ks[|ks| - 1]).refs, ref)
  {
    hide Layered, AtLevel, RollupOf, Flatten;
    FrontAtLevel(f, depth, ks, level);
    var rs, r := RollupsOf(f, depth, height, ks[..|ks| - 1], level), RollupOf(f, depth, height, ks[|ks| - 1]);
    assert RollupsOf(f, depth, height, ks, level) == rs + [r];
    OneMoreList(rs, r);
    CountOfJoined(Flatten(RefLists(rs)), r.refs, ref);
  }

  lemma {:induction false} RefsOfListsAreSubtrees(f: Forest, parent: map<nat, nat>, depth: map<nat, nat>, height: nat,
                                                  ks: seq<nat>, level: nat, ref: nat)
    requires IsForest(f, parent, depth, height) && Layered(f, depth, height) && AtLevel(f, depth, ks, level)
             && NoRepeats(ks)
    ensures Occurrences(Flatten(RefLists(RollupsOf(f, depth, height, ks, level))), ref)
            == SumOver(Subtrees(f, depth, height, ks, level), RefCount(f, ref))
    decreases if level <= height + 1 then height - level + 1 else 0, 0, |ks|
  {
    hide IsForest, Layered, AtLevel, NoRepeats, RollupOf, RollupsOf, Flatten, RefCount, RefLists, Occurrences, Subtree;
    if ks == [] {
      NoRefs(f, depth, height, level, ref);
    } else {
      var front, k := ks[..|ks| - 1], ks[|ks| - 1];
      ListRefs(f, depth, height, ks, level, ref);
      FrontNoRepeats(ks);
      FrontAtLevel(f, depth, ks, level);
      LayeredNode(f, depth, height, k);
      RefsOfListsAreSubtrees(f, parent, depth, height, front, level, ref);
      RefsAreSubtrees(f, parent, depth, height, k, ref);
      assert ks == front + [k];
      SubtreesDisjoint(f, parent, depth, height, front, level, k);
      SumOverUnion(Subtrees(f, depth, height, front, level), Subtree(f, depth, height, k), RefCount(f, ref));
    }
  }

  lemma NoRefs(f: Forest, depth: map<nat, nat>, height: nat, level: nat, ref: nat)
    requires Layered(f, depth, height) && AtLevel(f, depth, [], level)
    ensures Occurrences(Flatten(RefLists(RollupsOf(f, depth, height, [], level))), ref) == 0
    ensures SumOver(Subtrees(f, depth, height, [], level), RefCount(f, ref)) == 0
  {
    hide Layered, AtLevel;
    assert RefLists([]) == [];
  }

  lemma OneMoreList(rs: seq<Rollup>, r: Rollup)
    ensures Flatten(RefLists(rs + [r])) == Flatten(RefLists(rs)) + r.refs
  {
    assert RefLists(rs + [r])[..|rs|] == RefLists(rs);
  }
}
