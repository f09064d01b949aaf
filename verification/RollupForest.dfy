/** Rollups over a forest of accounts: amounts, evidence, visibility and emitted lines as recursive functions, and
    what they mean (src/account-hierarchy-rollup-lines.ts). */
module RollupForest {
  import opened Wrappers
  import opened AccountHierarchy

  /** An account's directly supplied amount in cents and its evidence. */
  datatype Direct = Direct(amount: int, postings: seq<nat>, refs: seq<nat>)

  /** The root and child lists of the nodes by account id, the direct amounts, and whether zero lines are kept. */
  datatype Forest = Forest(roots: seq<nat>, children: map<nat, seq<nat>>, direct: map<nat, Direct>, includeZero: bool)

  datatype Rollup = Rollup(amount: int, postings: set<nat>, refs: seq<nat>, accounts: set<nat>, visible: bool)

  datatype Line = Line(account: nat, parent: Option<nat>, rollup: Rollup)

  ghost predicate NoRepeats(s: seq<nat>) {
    forall i, j | 0 <= i < j < |s| :: s[i] != s[j]
  }

  /** The lists are those of a forest whose nodes lie at these depths, none below the height. */
  ghost predicate IsForest(f: Forest, parent: map<nat, nat>, depth: map<nat, nat>, height: nat) {
    && NoRepeats(f.roots)
    && (forall k | k in f.children :: NoRepeats(f.children[k]))
    && (forall r :: r in f.roots <==> r in f.children && r !in parent)
    && parent.Keys <= f.children.Keys
    && (forall k | k in parent :: parent[k] in f.children && k in f.children[parent[k]])
    && (forall p, k | p in f.children && k in f.children[p] :: k in parent && parent[k] == p)
    && (forall k | k in f.children :: k in depth && depth[k] <= height)
    && (forall k | k in parent :: parent[k] in depth && depth[k] == depth[parent[k]] + 1)
    && (forall k | k in f.roots :: depth[k] == 0)
  }

  /** What makes the recursion over children end: every child lies one level deeper, within the height. */
  ghost predicate Layered(f: Forest, depth: map<nat, nat>, height: nat) {
    forall k | k in f.children ::
      && k in depth && depth[k] <= height
      && forall c | c in f.children[k] :: c in f.children && c in depth && depth[c] == depth[k] + 1
  }

  ghost predicate AtLevel(f: Forest, depth: map<nat, nat>, ks: seq<nat>, level: nat) {
    forall k | k in ks :: k in f.children && k in depth && depth[k] == level
  }

  // ---- rollups ----

  function Flatten<T>(ss: seq<seq<T>>): seq<T> {
    if ss == [] then [] else Flatten(ss[..|ss| - 1]) + ss[|ss| - 1]
  }

  function PostingsOf(d: Option<Direct>): set<nat> {
    if d.Some? then set p | p in d.value.postings else {}
  }

  function RefsOf(d: Option<Direct>): seq<nat> {
    if d.Some? then d.value.refs else []
  }

  function AmountOf(d: Option<Direct>): int {
    if d.Some? then d.value.amount else 0
  }

  function DirectOf(f: Forest, k: nat): Option<Direct> {
    if k in f.direct then Some(f.direct[k]) else None
  }

  function Amounts(rs: seq<Rollup>): int {
    if rs == [] then 0 else Amounts(rs[..|rs| - 1]) + rs[|rs| - 1].amount
  }

  /** One node's rollup from its direct amount and its children's rollups. Lists of unique sorted ids are sets. */
  function Combine(k: nat, d: Option<Direct>, rs: seq<Rollup>, includeZero: bool): Rollup {
    var amount := AmountOf(d) + Amounts(rs);
    Rollup(
      amount,
      PostingsOf(d) + (set r, p | r in rs && p in r.postings :: p),
      RefsOf(d) + Flatten(seq(|rs|, i requires 0 <= i < |rs| => rs[i].refs)),
      {k} + (set r, a | r in rs && r.visible && a in r.accounts :: a),
      includeZero || amount != 0 || PostingsOf(d) != {} || RefsOf(d) != [] || exists r | r in rs :: r.visible)
  }

  function RollupOf(f: Forest, ghost depth: map<nat, nat>, ghost height: nat, k: nat): Rollup
    requires Layered(f, depth, height) && k in f.children
    decreases height - depth[k], 1, 0
  {
    Combine(k, DirectOf(f, k), RollupsOf(f, depth, height, f.children[k], depth[k] + 1), f.includeZero)
  }

  function RollupsOf(f: Forest, ghost depth: map<nat, nat>, ghost height: nat, ks: seq<nat>,
                     ghost level: nat): (rs: seq<Rollup>)
    requires Layered(f, depth, height) && AtLevel(f, depth, ks, level)
    ensures |rs| == |ks|
    decreases height - level + 1, 0, |ks|
  {
    if ks == [] then []
    else
      assert forall k | k in ks[..|ks| - 1] :: k in ks;
      RollupsOf(f, depth, height, ks[..|ks| - 1], level)
      + [RollupOf(f, depth, height, ks[|ks| - 1])]
  }

  // ---- subtrees ----

  function Subtree(f: Forest, ghost depth: map<nat, nat>, ghost height: nat, k: nat): set<nat>
    requires Layered(f, depth, height) && k in f.children
    decreases height - depth[k], 1, 0
  {
    {k} + Subtrees(f, depth, height, f.children[k], depth[k] + 1)
  }

  function Subtrees(f: Forest, ghost depth: map<nat, nat>, ghost height: nat, ks: seq<nat>, ghost level: nat): set<nat>
    requires Layered(f, depth, height) && AtLevel(f, depth, ks, level)
    decreases height - level + 1, 0, |ks|
  {
    if ks == [] then {}
    else
      assert forall k | k in ks[..|ks| - 1] :: k in ks;
      Subtrees(f, depth, height, ks[..|ks| - 1], level) + Subtree(f, depth, height, ks[|ks| - 1])
  }

  lemma ForestIsLayered(f: Forest, parent: map<nat, nat>, depth: map<nat, nat>, height: nat)
    requires IsForest(f, parent, depth, height)
    ensures Layered(f, depth, height) && AtLevel(f, depth, f.roots, 0)
  {
  }

  lemma ChildrenAtLevel(f: Forest, depth: map<nat, nat>, height: nat, k: nat)
    requires Layered(f, depth, height) && k in f.children
    ensures AtLevel(f, depth, f.children[k], depth[k] + 1)
  {
  }

  lemma LayeredNode(f: Forest, depth: map<nat, nat>, height: nat, k: nat)
    requires Layered(f, depth, height) && k in f.children
    ensures k in depth && depth[k] <= height
  {
  }

  lemma LevelOf(f: Forest, depth: map<nat, nat>, ks: seq<nat>, level: nat, k: nat)
    requires AtLevel(f, depth, ks, level) && k in ks
    ensures k in f.children && k in depth && depth[k] == level
  {
  }

  lemma ForestNode(f: Forest, parent: map<nat, nat>, depth: map<nat, nat>, height: nat, k: nat)
    requires IsForest(f, parent, depth, height) && k in f.children
    ensures k in depth && (k !in parent ==> k in f.roots && depth[k] == 0)
    ensures k in parent ==> parent[k] in f.children && parent[k] in depth && depth[k] == depth[parent[k]] + 1
  {
  }

  lemma FrontAtLevel(f: Forest, depth: map<nat, nat>, ks: seq<nat>, level: nat)
    requires AtLevel(f, depth, ks, level) && ks != []
    ensures AtLevel(f, depth, ks[..|ks| - 1], level) && ks[|ks| - 1] in f.children && depth[ks[|ks| - 1]] == level
  {
    assert forall k | k in ks[..|ks| - 1] :: k in ks;
    assert ks[|ks| - 1] in ks;
  }

  lemma ForestLink(f: Forest, parent: map<nat, nat>, depth: map<nat, nat>, height: nat, p: nat, c: nat)
    requires IsForest(f, parent, depth, height) && p in f.children
    requires c in f.children[p] || (c in parent && parent[c] == p)
    ensures c in f.children && c in f.children[p] && c in parent && parent[c] == p
    ensures p in depth && c in depth && depth[c] == depth[p] + 1
  {
  }

  /** The nodes of a list of subtrees are exactly those with an ancestor in the list at its level. */
  ghost predicate Under(f: Forest, parent: map<nat, nat>, depth: map<nat, nat>, x: nat, k: nat) {
    && x in f.children && x in depth && k in depth && depth[k] <= depth[x]
    && Ancestor(parent, x, depth[x] - depth[k]) == Some(k)
  }

  lemma {:induction false} SubtreeIsUnder(f: Forest, parent: map<nat, nat>, depth: map<nat, nat>, height: nat, k: nat,
                                          x: nat)
    requires IsForest(f, parent, depth, height) && Layered(f, depth, height) && k in f.children
    requires x in Subtree(f, depth, height, k)
    ensures Under(f, parent, depth, x, k)
    decreases height - depth[k], 1, 0
  {
    hide IsForest, Layered, AtLevel;
    LayeredNode(f, depth, height, k);
    if x != k {
      ChildrenAtLevel(f, depth, height, k);
      var c := SubtreesAreUnder(f, parent, depth, height, f.children[k], depth[k] + 1, x);
      ForestLink(f, parent, depth, height, k, c);
      AncestorStep(parent, x, depth[x] - depth[c]);
    }
  }

  lemma {:induction false} SubtreesAreUnder(f: Forest, parent: map<nat, nat>, depth: map<nat, nat>, height: nat,
                                            ks: seq<nat>, level: nat, x: nat) returns (k: nat)
    requires IsForest(f, parent, depth, height) && Layered(f, depth, height) && AtLevel(f, depth, ks, level)
    requires x in Subtrees(f, depth, height, ks, level)
    ensures k in ks && Under(f, parent, depth, x, k)
    decreases height - level + 1, 0, |ks|
  {
    FrontAtLevel(f, depth, ks, level);
    if x in Subtree(f, depth, height, ks[|ks| - 1]) {
      k := ks[|ks| - 1];
      SubtreeIsUnder(f, parent, depth, height, k, x);
    } else {
      k := SubtreesAreUnder(f, parent, depth, height, ks[..|ks| - 1], level, x);
    }
  }

  lemma {:induction false} SubtreeInSubtrees(f: Forest, depth: map<nat, nat>, height: nat, ks: seq<nat>, level: nat,
                                             k: nat)
    requires Layered(f, depth, height) && AtLevel(f, depth, ks, level) && k in ks
    ensures Subtree(f, depth, height, k) <= Subtrees(f, depth, height, ks, level)
    decreases |ks|
  {
    FrontAtLevel(f, depth, ks, level);
    if k != ks[|ks| - 1] {
      assert k in ks[..|ks| - 1];
      SubtreeInSubtrees(f, depth, height, ks[..|ks| - 1], level, k);
    }
  }

  lemma {:induction false} UnderIsInSubtree(f: Forest, parent: map<nat, nat>, depth: map<nat, nat>, height: nat, k: nat,
                                            x: nat, n: nat)
    requires IsForest(f, parent, depth, height) && Layered(f, depth, height) && k in f.children && x in f.children
    requires Ancestor(parent, x, n) == Some(k)
    ensures x in Subtree(f, depth, height, k)
    decreases n
  {
    hide IsForest, Layered, AtLevel;
    LayeredNode(f, depth, height, k);
    if n > 0 {
      PreviousAncestor(parent, x, n);
      var c := Ancestor(parent, x, n - 1).value;
      ForestLink(f, parent, depth, height, k, c);
      UnderIsInSubtree(f, parent, depth, height, c, x, n - 1);
      ChildrenAtLevel(f, depth, height, k);
      SubtreeInSubtrees(f, depth, height, f.children[k], depth[k] + 1, c);
    }
  }

  lemma {:induction false} PreviousAncestor(parent: map<nat, nat>, x: nat, n: nat)
    requires n > 0 && Ancestor(parent, x, n).Some?
    ensures var c := Ancestor(parent, x, n - 1);
            c.Some? && c.value in parent && parent[c.value] == Ancestor(parent, x, n).value
    decreases n
  {
    if n > 1 { PreviousAncestor(parent, parent[x], n - 1); }
  }

  /** The subtrees of two different nodes at one level share nothing. */
  lemma SubtreesDisjoint(f: Forest, parent: map<nat, nat>, depth: map<nat, nat>, height: nat, front: seq<nat>,
                         level: nat, k: nat)
    requires IsForest(f, parent, depth, height) && Layered(f, depth, height) && AtLevel(f, depth, front + [k], level)
    requires NoRepeats(front + [k])
    ensures AtLevel(f, depth, front, level) && k in f.children
    ensures Subtrees(f, depth, height, front, level) !! Subtree(f, depth, height, k)
  {
    hide IsForest, Layered, AtLevel;
    FrontAtLevel(f, depth, front + [k], level);
    assert (front + [k])[..|front|] == front;
    assert k !in front by { assert (front + [k])[|front|] == k; }
    forall x | x in Subtrees(f, depth, height, front, level) ensures x !in Subtree(f, depth, height, k) {
      var c := SubtreesAreUnder(f, parent, depth, height, front, level, x);
      LevelOf(f, depth, front, level, c);
      if x in Subtree(f, depth, height, k) {
        SubtreeIsUnder(f, parent, depth, height, k, x);
      }
    }
  }

  /** The subtrees of the roots are all the nodes. */
  lemma RootsCoverAll(f: Forest, parent: map<nat, nat>, depth: map<nat, nat>, height: nat)
    requires IsForest(f, parent, depth, height) && Layered(f, depth, height) && AtLevel(f, depth, f.roots, 0)
    ensures Subtrees(f, depth, height, f.roots, 0) == f.children.Keys
  {
    hide IsForest;
    forall x | x in f.children ensures x in Subtrees(f, depth, height, f.roots, 0) {
      var r := RootAbove(f, parent, depth, height, x);
      LevelOf(f, depth, f.roots, 0, r);
      UnderIsInSubtree(f, parent, depth, height, r, x, depth[x]);
      SubtreeInSubtrees(f, depth, height, f.roots, 0, r);
    }
    forall x | x in Subtrees(f, depth, height, f.roots, 0) ensures x in f.children {
      var r := SubtreesAreUnder(f, parent, depth, height, f.roots, 0, x);
    }
  }

  lemma {:induction false} RootAbove(f: Forest, parent: map<nat, nat>, depth: map<nat, nat>, height: nat, x: nat)
    returns (r: nat)
    requires IsForest(f, parent, depth, height) && x in f.children
    ensures x in depth && r in f.roots && Ancestor(parent, x, depth[x]) == Some(r)
    decreases if x in depth then depth[x] else 0
  {
    hide IsForest;
    ForestNode(f, parent, depth, height, x);
    if x in parent {
      r := RootAbove(f, parent, depth, height, parent[x]);
    } else {
      r := x;
    }
  }
}
