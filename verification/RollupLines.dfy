/** The emitted report lines: every visible account once, after its parent's line, summing to everything supplied. */
module RollupLines {
  import opened Wrappers
  import opened Sums
  import opened RollupForest
  import opened RollupLaws

  /** The lines of a list of sibling nodes: each visible node's line followed by its children's lines. */
  function LinesOf(f: Forest, ghost depth: map<nat, nat>, ghost height: nat, ks: seq<nat>, ghost level: nat,
                   above: Option<nat>): seq<Line>
    requires Layered(f, depth, height) && AtLevel(f, depth, ks, level)
    decreases height - level + 1, |ks|
  {
    if ks == [] then []
    else
      var k := ks[|ks| - 1];
      FrontAtLevel(f, depth, ks, level);
      LayeredNode(f, depth, height, k);
      ChildrenAtLevel(f, depth, height, k);
      LinesOf(f, depth, height, ks[..|ks| - 1], level, above)
      + if RollupOf(f, depth, height, k).visible
        then [Line(k, above, RollupOf(f, depth, height, k))]
          + LinesOf(f, depth, height, f.children[k], level + 1, Some(k))
        else []
  }

  predicate Lists(lines: seq<Line>, k: nat) {
    exists l | l in lines :: l.account == k
  }

  /** The lines are those of exactly the visible accounts of the subtrees. */
  lemma {:induction false} LinesAreVisible(f: Forest, depth: map<nat, nat>, height: nat, ks: seq<nat>, level: nat,
                                           above: Option<nat>, x: nat)
    requires Layered(f, depth, height) && AtLevel(f, depth, ks, level)
    ensures Lists(LinesOf(f, depth, height, ks, level, above), x)
            <==> x in Subtrees(f, depth, height, ks, level) && Visible(f, depth, height, x)
    decreases if level <= height + 1 then height - level + 1 else 0, |ks|
  {
    hide Layered, AtLevel, Lists;
    if ks == [] {
      NothingListed(x);
    } else {
      var k := ks[|ks| - 1];
      FrontAtLevel(f, depth, ks, level);
      LayeredNode(f, depth, height, k);
      ChildrenAtLevel(f, depth, height, k);
      var before := LinesOf(f, depth, height, ks[..|ks| - 1], level, above);
      var below := LinesOf(f, depth, height, f.children[k], level + 1, Some(k));
      var line := Line(k, above, RollupOf(f, depth, height, k));
      LinesAreVisible(f, depth, height, ks[..|ks| - 1], level, above, x);
      LinesAreVisible(f, depth, height, f.children[k], level + 1, Some(k), x);
      ListsSplit(line, below, x);
      ListsAppended(before, [line] + below, x);
      if x in Subtree(f, depth, height, k) && Visible(f, depth, height, x) {
        VisibleAbove(f, depth, height, k, x);
      }
      if !RollupOf(f, depth, height, k).visible { assert LinesOf(f, depth, height, ks, level, above) == before; }
    }
  }

  lemma NothingListed(x: nat)
    ensures !Lists([], x)
  {
  }

  lemma ListsAppended(a: seq<Line>, b: seq<Line>, x: nat)
    ensures Lists(a + b, x) <==> Lists(a, x) || Lists(b, x)
  {
    assert forall l :: l in a + b <==> l in a || l in b;
  }

  ghost predicate OneLineEach(lines: seq<Line>) {
    forall i, j | 0 <= i < j < |lines| :: lines[i].account != lines[j].account
  }

  lemma AppendLines(a: seq<Line>, b: seq<Line>)
    requires OneLineEach(a) && OneLineEach(b)
    requires forall k :: !(Lists(a, k) && Lists(b, k))
    ensures OneLineEach(a + b)
  {
    forall i, j | 0 <= i < j < |a + b| ensures (a + b)[i].account != (a + b)[j].account {
      if i < |a| && j >= |a| {
        assert a[i] in a && Lists(a, a[i].account);
        assert b[j - |a|] in b && Lists(b, b[j - |a|].account);
      }
    }
  }

  /** No account is listed twice. */
  lemma {:induction false} LinesListOnce(f: Forest, parent: map<nat, nat>, depth: map<nat, nat>, height: nat,
                                         ks: seq<nat>, level: nat, above: Option<nat>)
    requires IsForest(f, parent, depth, height) && Layered(f, depth, height) && AtLevel(f, depth, ks, level)
             && NoRepeats(ks)
    ensures OneLineEach(LinesOf(f, depth, height, ks, level, above))
    decreases if level <= height + 1 then height - level + 1 else 0, |ks|
  {
    hide IsForest, Layered, AtLevel, NoRepeats, Lists, OneLineEach;
    if ks == [] {
      NoLines();
    } else {
      var front, k := ks[..|ks| - 1], ks[|ks| - 1];
      FrontAtLevel(f, depth, ks, level);
      FrontNoRepeats(ks);
      LayeredNode(f, depth, height, k);
      ChildrenAtLevel(f, depth, height, k);
      ChildLists(f, parent, depth, height, k);
      var before := LinesOf(f, depth, height, front, level, above);
      var below := LinesOf(f, depth, height, f.children[k], level + 1, Some(k));
      var line := Line(k, above, RollupOf(f, depth, height, k));
      LinesListOnce(f, parent, depth, height, front, level, above);
      LinesListOnce(f, parent, depth, height, f.children[k], level + 1, Some(k));
      assert ks == front + [k];
      SubtreesDisjoint(f, parent, depth, height, front, level, k);
      NotUnderChildren(f, parent, depth, height, k);
      forall x ensures !(Lists([line], x) && Lists(below, x)) && !(Lists(before, x) && Lists([line] + below, x)) {
        LinesAreVisible(f, depth, height, front, level, above, x);
        LinesAreVisible(f, depth, height, f.children[k], level + 1, Some(k), x);
        ListsSplit(line, below, x);
      }
      OneLine(line);
      AppendLines([line], below);
      AppendLines(before, [line] + below);
      if !RollupOf(f, depth, height, k).visible { assert LinesOf(f, depth, height, ks, level, above) == before; }
    }
  }

  lemma NoLines()
    ensures OneLineEach([])
  {
  }

  lemma OneLine(line: Line)
    ensures OneLineEach([line])
  {
  }

  lemma ListsSplit(line: Line, below: seq<Line>, x: nat)
    ensures Lists([line], x) <==> x == line.account
    ensures Lists([line] + below, x) <==> x == line.account || Lists(below, x)
  {
    assert line in [line] && line in [line] + below;
    assert forall l :: l in [line] + below <==> l == line || l in below;
  }

  /** A line carries its account's rollup; at the given level it hangs below the given line, and deeper it names its
      account's parent, whose line comes earlier. */
  ghost predicate LineOk(f: Forest, parent: map<nat, nat>, depth: map<nat, nat>, height: nat, lines: seq<Line>, i: nat,
                         level: nat, above: Option<nat>)
    requires Layered(f, depth, height) && i < |lines|
  {
    var l := lines[i];
    && l.account in f.children && l.account in depth && depth[l.account] >= level
    && l.rollup == RollupOf(f, depth, height, l.account) && l.rollup.visible
    && (depth[l.account] == level ==> l.parent == above && (l.account in parent ==> above == Some(parent[l.account])))
    && (depth[l.account] > level ==>
          && l.account in parent && l.parent == Some(parent[l.account])
          && exists j | 0 <= j < i :: lines[j].account == parent[l.account])
  }

  ghost predicate LinesOk(f: Forest, parent: map<nat, nat>, depth: map<nat, nat>, height: nat, lines: seq<Line>,
                          level: nat, above: Option<nat>)
    requires Layered(f, depth, height)
  {
    forall i: nat | i < |lines| :: LineOk(f, parent, depth, height, lines, i, level, above)
  }

  lemma {:induction false} LinesFollowParents(f: Forest, parent: map<nat, nat>, depth: map<nat, nat>, height: nat,
                                              ks: seq<nat>, level: nat, above: Option<nat>)
    requires IsForest(f, parent, depth, height) && Layered(f, depth, height) && AtLevel(f, depth, ks, level)
    requires forall k | k in ks && k in parent :: above == Some(parent[k])
    ensures LinesOk(f, parent, depth, height, LinesOf(f, depth, height, ks, level, above), level, above)
    decreases if level <= height + 1 then height - level + 1 else 0, |ks|
  {
    hide IsForest, Layered, AtLevel, LinesOk;
    if ks == [] {
      NoLinesOk(f, parent, depth, height, level, above);
    } else {
      var front, k := ks[..|ks| - 1], ks[|ks| - 1];
      FrontAtLevel(f, depth, ks, level);
      LayeredNode(f, depth, height, k);
      ChildrenAtLevel(f, depth, height, k);
      var before := LinesOf(f, depth, height, front, level, above);
      assert forall x | x in front :: x in ks;
      LinesFollowParents(f, parent, depth, height, front, level, above);
      if RollupOf(f, depth, height, k).visible {
        forall c | c in f.children[k] ensures c in parent && parent[c] == k {
          ForestLink(f, parent, depth, height, k, c);
        }
        LinesFollowParents(f, parent, depth, height, f.children[k], level + 1, Some(k));
        LinesAppended(f, parent, depth, height, before, k, level, above);
      } else {
        assert LinesOf(f, depth, height, ks, level, above) == before;
      }
    }
  }

  lemma NoLinesOk(f: Forest, parent: map<nat, nat>, depth: map<nat, nat>, height: nat, level: nat, above: Option<nat>)
    requires Layered(f, depth, height)
    ensures LinesOk(f, parent, depth, height, [], level, above)
  {
  }

  lemma LinesAppended(f: Forest, parent: map<nat, nat>, depth: map<nat, nat>, height: nat, before: seq<Line>, k: nat,
                      level: nat, above: Option<nat>)
    requires IsForest(f, parent, depth, height) && Layered(f, depth, height) && k in f.children && k in depth
             && depth[k] == level
    requires AtLevel(f, depth, f.children[k], level + 1) && RollupOf(f, depth, height, k).visible
    requires k in parent ==> above == Some(parent[k])
    requires LinesOk(f, parent, depth, height, before, level, above)
    requires LinesOk(f, parent, depth, height, LinesOf(f, depth, height, f.children[k], level + 1, Some(k)), level + 1,
                     Some(k))
    ensures LinesOk(f, parent, depth, height,
                    before + ([Line(k, above, RollupOf(f, depth, height, k))]
                              + LinesOf(f, depth, height, f.children[k], level + 1, Some(k))),
                    level, above)
  {
    hide Layered, AtLevel, IsForest, LinesOf, RollupOf, LineOk;
    var line := Line(k, above, RollupOf(f, depth, height, k));
    var below := LinesOf(f, depth, height, f.children[k], level + 1, Some(k));
    var all := before + ([line] + below);
    assert all == (before + [line]) + below;
    forall i: nat | i < |all| ensures LineOk(f, parent, depth, height, all, i, level, above) {
      if i < |before| {
        EarlyLineOk(f, parent, depth, height, before, [line] + below, i, level, above);
      } else if i > |before| {
        LateLineOk(f, parent, depth, height, before + [line], below, i - |before| - 1, level, above);
      } else {
        OwnLineOk(f, parent, depth, height, before, line, below, level, above);
      }
    }
  }

  lemma EarlyLineOk(f: Forest, parent: map<nat, nat>, depth: map<nat, nat>, height: nat, before: seq<Line>,
                    rest: seq<Line>, i: nat, level: nat, above: Option<nat>)
    requires Layered(f, depth, height) && i < |before| && LineOk(f, parent, depth, height, before, i, level, above)
    ensures LineOk(f, parent, depth, height, before + rest, i, level, above)
  {
    hide Layered, RollupOf;
    assert forall j | 0 <= j <= i :: (before + rest)[j] == before[j];
  }

  lemma OwnLineOk(f: Forest, parent: map<nat, nat>, depth: map<nat, nat>, height: nat, before: seq<Line>, line: Line,
                  below: seq<Line>, level: nat, above: Option<nat>)
    requires Layered(f, depth, height) && line.account in f.children && line.account in depth
             && depth[line.account] == level
    requires line.rollup == RollupOf(f, depth, height, line.account) && line.rollup.visible && line.parent == above
    requires line.account in parent ==> above == Some(parent[line.account])
    ensures LineOk(f, parent, depth, height, before + ([line] + below), |before|, level, above)
  {
    hide Layered, RollupOf;
    assert (before + ([line] + below))[|before|] == line;
  }

  lemma LateLineOk(f: Forest, parent: map<nat, nat>, depth: map<nat, nat>, height: nat, prefix: seq<Line>,
                   below: seq<Line>, m: nat, level: nat, above: Option<nat>)
    requires IsForest(f, parent, depth, height) && Layered(f, depth, height) && m < |below| && prefix != []
    requires LineOk(f, parent, depth, height, below, m, level + 1, Some(prefix[|prefix| - 1].account))
    ensures LineOk(f, parent, depth, height, prefix + below, |prefix| + m, level, above)
  {
    hide Layered, RollupOf, IsForest;
    var all, n := prefix + below, |prefix|;
    assert all[n - 1] == prefix[n - 1] && all[n + m] == below[m];
    DeepLineOk(f, parent, depth, height, below, m, level + 1, prefix[n - 1].account);
    if depth[below[m].account] > level + 1 {
      var j :| 0 <= j < m && below[j].account == parent[below[m].account];
      assert all[n + j] == below[j];
    }
  }

  /** A line hanging directly below k's line is that of a child of k. */
  lemma DeepLineOk(f: Forest, parent: map<nat, nat>, depth: map<nat, nat>, height: nat, below: seq<Line>, m: nat,
                   level: nat, k: nat)
    requires IsForest(f, parent, depth, height) && Layered(f, depth, height) && m < |below| && level > 0
    requires LineOk(f, parent, depth, height, below, m, level, Some(k))
    ensures below[m].account in parent
  {
  }

  // ---- the whole report ----

  function TopAmounts(lines: seq<Line>): int {
    if lines == [] then 0
    else
      var last := lines[|lines| - 1];
      TopAmounts(lines[..|lines| - 1]) + if last.parent.None? then last.rollup.amount else 0
  }

  lemma {:induction false} TopAmountsAppend(a: seq<Line>, b: seq<Line>)
    ensures TopAmounts(a + b) == TopAmounts(a) + TopAmounts(b)
  {
    if b == [] {
      assert a + b == a;
    } else {
      assert (a + b)[..|a + b| - 1] == a + b[..|b| - 1];
      TopAmountsAppend(a, b[..|b| - 1]);
    }
  }

  lemma {:induction false} NoTopAmounts(lines: seq<Line>)
    requires forall l | l in lines :: l.parent.Some?
    ensures TopAmounts(lines) == 0
  {
    if lines != [] {
      assert forall l | l in lines[..|lines| - 1] :: l in lines;
      NoTopAmounts(lines[..|lines| - 1]);
    }
  }

  lemma LinesBelowHaveParents(f: Forest, parent: map<nat, nat>, depth: map<nat, nat>, height: nat, k: nat)
    requires IsForest(f, parent, depth, height) && Layered(f, depth, height) && k in f.children
    ensures k in depth && AtLevel(f, depth, f.children[k], depth[k] + 1)
    ensures TopAmounts(LinesOf(f, depth, height, f.children[k], depth[k] + 1, Some(k))) == 0
  {
    hide IsForest, Layered, AtLevel, LinesOf;
    LayeredNode(f, depth, height, k);
    ChildrenAtLevel(f, depth, height, k);
    forall c | c in f.children[k] ensures c in parent && parent[c] == k {
      ForestLink(f, parent, depth, height, k, c);
    }
    LinesFollowParents(f, parent, depth, height, f.children[k], depth[k] + 1, Some(k));
    var lines := LinesOf(f, depth, height, f.children[k], depth[k] + 1, Some(k));
    forall l | l in lines ensures l.parent.Some? {
      var i :| 0 <= i < |lines| && lines[i] == l;
      assert LineOk(f, parent, depth, height, lines, i, depth[k] + 1, Some(k));
    }
    NoTopAmounts(lines);
  }

  /** The lines of a list are those of all but its last node, and then the last node's. */
  lemma LinesStep(f: Forest, depth: map<nat, nat>, height: nat, ks: seq<nat>, level: nat, above: Option<nat>)
    requires Layered(f, depth, height) && AtLevel(f, depth, ks, level) && ks != []
    ensures var front, k := ks[..|ks| - 1], ks[|ks| - 1];
            && AtLevel(f, depth, front, level) && k in f.children && k in depth && depth[k] == level
            && AtLevel(f, depth, f.children[k], level + 1)
            && var before, r := LinesOf(f, depth, height, front, level, above), RollupOf(f, depth, height, k);
            && RollupsOf(f, depth, height, ks, level) == RollupsOf(f, depth, height, front, level) + [r]
            && LinesOf(f, depth, height, ks, level, above)
               == before + if r.visible
                           then [Line(k, above, r)] + LinesOf(f, depth, height, f.children[k], level + 1, Some(k))
                           else []
  {
    hide Layered, AtLevel, RollupOf;
    FrontAtLevel(f, depth, ks, level);
    LayeredNode(f, depth, height, ks[|ks| - 1]);
    ChildrenAtLevel(f, depth, height, ks[|ks| - 1]);
  }

  /** One more root adds its rollup's amount to the top-level lines, whether it is shown or hidden. */
  lemma TopStep(f: Forest, parent: map<nat, nat>, depth: map<nat, nat>, height: nat, ks: seq<nat>)
    requires IsForest(f, parent, depth, height) && Layered(f, depth, height) && AtLevel(f, depth, ks, 0) && ks != []
    ensures AtLevel(f, depth, ks[..|ks| - 1], 0) && ks[|ks| - 1] in f.children
    ensures TopAmounts(LinesOf(f, depth, height, ks, 0, None))
            == TopAmounts(LinesOf(f, depth, height, ks[..|ks| - 1], 0, None))
              + RollupOf(f, depth, height, ks[|ks| - 1]).amount
  {
    hide IsForest, Layered, AtLevel, RollupOf, RollupsOf, LinesOf, TopAmounts;
    var k := ks[|ks| - 1];
    LinesStep(f, depth, height, ks, 0, None);
    var before := LinesOf(f, depth, height, ks[..|ks| - 1], 0, None);
    if RollupOf(f, depth, height, k).visible {
      LinesBelowHaveParents(f, parent, depth, height, k);
      OneMoreTop(before, Line(k, None, RollupOf(f, depth, height, k)),
                 LinesOf(f, depth, height, f.children[k], 1, Some(k)));
    } else {
      HiddenIsZero(f, depth, height, k);
      assert before + [] == before;
    }
  }

  lemma AmountStep(f: Forest, depth: map<nat, nat>, height: nat, ks: seq<nat>)
    requires Layered(f, depth, height) && AtLevel(f, depth, ks, 0) && ks != []
    ensures AtLevel(f, depth, ks[..|ks| - 1], 0) && ks[|ks| - 1] in f.children
    ensures Amounts(RollupsOf(f, depth, height, ks, 0))
            == Amounts(RollupsOf(f, depth, height, ks[..|ks| - 1], 0)) + RollupOf(f, depth, height, ks[|ks| - 1]).amount
  {
    hide Layered, AtLevel, RollupOf, RollupsOf, LinesOf, Amounts;
    LinesStep(f, depth, height, ks, 0, None);
    OneMoreAmount(RollupsOf(f, depth, height, ks[..|ks| - 1], 0), RollupOf(f, depth, height, ks[|ks| - 1]));
  }

  lemma {:induction false} TopAmountsAreRollups(f: Forest, parent: map<nat, nat>, depth: map<nat, nat>, height: nat,
                                                ks: seq<nat>)
    requires IsForest(f, parent, depth, height) && Layered(f, depth, height) && AtLevel(f, depth, ks, 0)
    ensures TopAmounts(LinesOf(f, depth, height, ks, 0, None)) == Amounts(RollupsOf(f, depth, height, ks, 0))
    decreases |ks|
  {
    if ks == [] {
      NothingEmitted(f, depth, height);
    } else {
      hide IsForest, Layered, AtLevel, RollupOf, RollupsOf, LinesOf, TopAmounts, Amounts;
      TopStep(f, parent, depth, height, ks);
      AmountStep(f, depth, height, ks);
      TopAmountsAreRollups(f, parent, depth, height, ks[..|ks| - 1]);
    }
  }

  lemma NothingEmitted(f: Forest, depth: map<nat, nat>, height: nat)
    requires Layered(f, depth, height) && AtLevel(f, depth, [], 0)
    ensures TopAmounts(LinesOf(f, depth, height, [], 0, None)) == 0 && Amounts(RollupsOf(f, depth, height, [], 0)) == 0
  {
    hide Layered, AtLevel, RollupOf;
  }

  lemma OneMoreTop(before: seq<Line>, line: Line, below: seq<Line>)
    requires line.parent.None? && TopAmounts(below) == 0
    ensures TopAmounts(before + ([line] + below)) == TopAmounts(before) + line.rollup.amount
  {
    TopAmountsAppend([line], below);
    TopAmountsAppend(before, [line] + below);
    assert [line][..0] == [];
  }

  lemma OneMoreAmount(rs: seq<Rollup>, r: Rollup)
    ensures Amounts(rs + [r]) == Amounts(rs) + r.amount
  {
    assert (rs + [r])[..|rs|] == rs;
  }

  lemma HiddenIsZero(f: Forest, depth: map<nat, nat>, height: nat, k: nat)
    requires Layered(f, depth, height) && k in f.children
    ensures RollupOf(f, depth, height, k).visible || RollupOf(f, depth, height, k).amount == 0
  {
  }

  ghost predicate ReportIsComplete(f: Forest, parent: map<nat, nat>, depth: map<nat, nat>, height: nat,
                                   lines: seq<Line>)
    requires Layered(f, depth, height)
  {
    && (forall x :: Lists(lines, x) <==> Visible(f, depth, height, x))
    && (forall x | x in f.children && AmountOf(DirectOf(f, x)) != 0 :: Lists(lines, x))
    && OneLineEach(lines)
    && LinesOk(f, parent, depth, height, lines, 0, None)
    && TopAmounts(lines) == SumOver(f.children.Keys, DirectAmount(f))
    && forall l | l in lines ::
         l.account in f.children && l.rollup.amount == SumOver(Subtree(f, depth, height, l.account), DirectAmount(f))
  }

  /** The report lists every visible account exactly once, so every account with a nonzero direct amount; every line
      sums its subtree, every child's line follows its parent's, and the top-level lines sum to all supplied amounts. */
  lemma ReportLinesComplete(f: Forest, parent: map<nat, nat>, depth: map<nat, nat>, height: nat)
    requires IsForest(f, parent, depth, height) && Layered(f, depth, height) && AtLevel(f, depth, f.roots, 0)
    ensures ReportIsComplete(f, parent, depth, height, LinesOf(f, depth, height, f.roots, 0, None))
  {
    hide IsForest, Layered, AtLevel, LinesOf, Lists, Visible, OneLineEach;
    var lines := LinesOf(f, depth, height, f.roots, 0, None);
    RootFacts(f, parent, depth, height);
    RootsCoverAll(f, parent, depth, height);
    forall x ensures Lists(lines, x) <==> Visible(f, depth, height, x) {
      LinesAreVisible(f, depth, height, f.roots, 0, None, x);
      if Visible(f, depth, height, x) { VisibleIsNode(f, depth, height, x); }
    }
    forall x | x in f.children && AmountOf(DirectOf(f, x)) != 0 ensures Lists(lines, x) {
      NonzeroIsVisible(f, depth, height, x);
    }
    LinesListOnce(f, parent, depth, height, f.roots, 0, None);
    LinesFollowParents(f, parent, depth, height, f.roots, 0, None);
    TopAmountsAreRollups(f, parent, depth, height, f.roots);
    RootAmountsAreTotal(f, parent, depth, height);
    forall l | l in lines
      ensures l.account in f.children
              && l.rollup.amount == SumOver(Subtree(f, depth, height, l.account), DirectAmount(f))
    {
      var i :| 0 <= i < |lines| && lines[i] == l;
      assert LineOk(f, parent, depth, height, lines, i, 0, None);
      AmountIsSubtreeSum(f, parent, depth, height, l.account);
    }
  }

  lemma RootFacts(f: Forest, parent: map<nat, nat>, depth: map<nat, nat>, height: nat)
    requires IsForest(f, parent, depth, height)
    ensures NoRepeats(f.roots) && forall k | k in f.roots :: k !in parent
  {
  }
}
