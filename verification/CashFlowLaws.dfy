/** The cash-flow summary always reconciles: its rejecting guard cannot be reached. */
module CashFlowLaws {
  import opened Wrappers
  import opened Sums
  import opened AccountHierarchy
  import opened CashFlow

  /** A posting's net amount is its debit less its credit. */
  predicate Netted(ps: seq<Posting>) {
    forall p | p in ps :: p.net == p.debit - p.credit
  }

  lemma {:induction false} NetByRole(lines: seq<Posting>)
    ensures Net(lines) == CashNet(lines) - Total(Movements(lines)) + NetWhere(lines, (p: Posting) => p.role.None?)
  {
    if lines != [] {
      var p := lines[|lines| - 1];
      NetByRole(lines[..|lines| - 1]);
      match p.role
      case None =>
      case Some(Cash) =>
      case Some(Flow(Operating)) =>
      case Some(Flow(Investing)) =>
      case Some(Flow(Financing)) =>
    }
  }

  lemma {:induction false} UnknownIsStill(lines: seq<Posting>)
    requires Netted(lines) && !HasUnknown(lines)
    ensures NetWhere(lines, (p: Posting) => p.role.None?) == 0
  {
    if lines != [] {
      assert lines[|lines| - 1] in lines && forall p | p in lines[..|lines| - 1] :: p in lines;
      UnknownIsStill(lines[..|lines| - 1]);
    }
  }

  /** In a balanced transaction without unknown movements the activity movements are the cash movement. */
  lemma MovementsAreCash(lines: seq<Posting>)
    requires Netted(lines) && !HasUnknown(lines) && Net(lines) == 0
    ensures Total(Movements(lines)) == CashNet(lines)
  {
    NetByRole(lines);
    UnknownIsStill(lines);
  }

  lemma ScaledTotal(k: int, s: Split)
    ensures Total(Scaled(k, s)) == k * Total(s)
  {
  }

  /** However one result row is classified, its activities and its unclassified amount make up its cash movement. */
  lemma ContributionBalances(lines: seq<Posting>, o: Owner)
    requires Netted(lines)
    ensures var c := Contribution(lines, o);
            c.net == CashNet(lines) && c.operating + c.investing + c.financing + c.unclassified == c.net
  {
    hide HasUnknown, OneSided, Activities, CashNet, Net, Movements, Netted, Scaled, Total, CountWhere;
    if Classify(lines, o).Allocated? {
      var s := Resolved(lines, o);
      assert Contribution(lines, o) == Flows(s.operating, s.investing, s.financing, 0, CashNet(lines));
      AllocatedTotal(lines, o);
      TotalIs(s);
    }
  }

  lemma TotalIs(s: Split)
    ensures Total(s) == s.operating + s.investing + s.financing
  {
  }

  /** An allocation resolves to exactly the cash movement, whichever of its three sources it comes from. */
  lemma AllocatedTotal(lines: seq<Posting>, o: Owner)
    requires Netted(lines) && Classify(lines, o).Allocated?
    ensures Total(Resolved(lines, o)) == CashNet(lines)
  {
    hide HasUnknown, OneSided, Activities, CashNet, Net, Movements, Netted, Scaled, Total, CountWhere;
    if o.native.Some? && o.native.value.correction.Some? {
      ScaledTotal(o.native.value.sign, o.native.value.correction.value);
    } else if o.native.Some? && o.native.value.payments.Some? {
      ScaledTotal(-o.native.value.sign, o.native.value.payments.value.split);
    } else {
      MovementsAreCash(lines);
    }
  }

  // ---- bounds of the general allocation ----

  predicate Between(x: int, cash: int) {
    if cash < 0 then cash <= x <= 0 else 0 <= x <= cash
  }

  lemma {:induction false} OneSidedMovement(lines: seq<Posting>, a: Activity, negative: bool)
    requires forall p | p in lines && !IsCash(p) :: if negative then p.net >= 0 else p.net <= 0
    ensures if negative then Movement(lines, a) <= 0 else Movement(lines, a) >= 0
  {
    if lines != [] {
      assert lines[|lines| - 1] in lines && forall p | p in lines[..|lines| - 1] :: p in lines;
      OneSidedMovement(lines[..|lines| - 1], a, negative);
    }
  }

  /** Without a document an allocated transaction gives every activity the sign of the cash movement and no more. */
  lemma AllocationIsBounded(lines: seq<Posting>)
    requires Netted(lines) && Classify(lines, Owner(None, None)).Allocated?
    ensures var c := Contribution(lines, Owner(None, None));
            && Between(c.operating, c.net) && Between(c.investing, c.net) && Between(c.financing, c.net)
            && c.operating + c.investing + c.financing == c.net && c.net != 0
  {
    hide Movement, CashNet, Net, Activities, HasUnknown, CountWhere;
    AllocatedTotal(lines, Owner(None, None));
    var negative := CashNet(lines) < 0;
    OneSidedMovement(lines, Operating, negative);
    OneSidedMovement(lines, Investing, negative);
    OneSidedMovement(lines, Financing, negative);
  }

  // ---- grouping ----

  lemma {:induction false} CashOfLines(ps: seq<Posting>, start: int, t: nat)
    ensures CashNet(Lines(ps, start, t)) == NetWhere(ps, (p: Posting) => IsCash(p) && InTransaction(p, start, t))
  {
    if ps != [] {
      var front, p := ps[..|ps| - 1], ps[|ps| - 1];
      CashOfLines(front, start, t);
      var lines := Lines(front, start, t);
      assert (lines + [p])[..|lines|] == lines;
      assert lines + [] == lines;
    }
  }

  lemma {:induction false} LinesNetted(ps: seq<Posting>, start: int, t: nat)
    requires Netted(ps)
    ensures Netted(Lines(ps, start, t))
  {
    if ps != [] {
      assert ps[|ps| - 1] in ps && forall p | p in ps[..|ps| - 1] :: p in ps;
      LinesNetted(ps[..|ps| - 1], start, t);
    }
  }

  ghost function CashIn(ps: seq<Posting>, start: int): nat -> int {
    (t: nat) => NetWhere(ps, (p: Posting) => IsCash(p) && InTransaction(p, start, t))
  }

  /** Grouping loses nothing: the cash of the transactions is the cash of the period. */
  lemma {:induction false} CashGrouped(ps: seq<Posting>, start: int, ts: set<nat>)
    requires Transactions(ps, start) <= ts
    ensures SumOver(ts, CashIn(ps, start)) == NetWhere(ps, (p: Posting) => IsCash(p) && p.date >= start)
  {
    if ps == [] {
      SumOverZero(ts, CashIn(ps, start));
    } else {
      var front, p := ps[..|ps| - 1], ps[|ps| - 1];
      assert ps == front + [p];
      assert Transactions(front, start) <= ts by {
        forall t | t in Transactions(front, start) ensures t in ts {
          var q :| q in front && q.date >= start && IsCash(q) && q.tx == t;
          assert q in ps;
        }
      }
      CashGrouped(front, start, ts);
      if IsCash(p) && p.date >= start {
        assert p in ps && p.tx in Transactions(ps, start);
        SumOverChanged(ts, CashIn(front, start), CashIn(ps, start), p.tx);
      } else {
        SumOverAgree(ts, CashIn(front, start), CashIn(ps, start));
      }
    }
  }

  lemma {:induction false} CashBeforeAndIn(ps: seq<Posting>, start: int)
    ensures NetWhere(ps, (p: Posting) => IsCash(p) && p.date < start)
            + NetWhere(ps, (p: Posting) => IsCash(p) && p.date >= start)
            == NetWhere(ps, (p: Posting) => IsCash(p))
  {
    if ps != [] { CashBeforeAndIn(ps[..|ps| - 1], start); }
  }

  // ---- the theorem ----

  lemma OneOwner(d: Documents)
    requires |d.receipts| <= 1 && |d.natives| <= 1
    ensures |Owners(d)| == 1
  {
    if |d.receipts| == 1 && |d.natives| == 1 {
      assert Crossed(d.receipts[..0], d.natives) == [];
    }
  }

  lemma OneRow(lines: seq<Posting>, owners: seq<Owner>)
    requires |owners| == 1
    ensures RowsTotal(lines, owners) == Contribution(lines, owners[0])
  {
    hide Contribution;
    assert RowsTotal(lines, owners[..0]) == NOTHING;
  }

  /** Without ambiguous ownership a transaction's flows make up its cash movement. */
  lemma TransactionBalances(ps: seq<Posting>, start: int, documents: map<nat, Documents>, t: nat)
    requires Netted(ps) && !Ambiguous(ps, start, documents) && t in Transactions(ps, start)
    ensures var f := TransactionFlows(ps, start, documents, t);
            && f.operating + f.investing + f.financing + f.unclassified == f.net
            && f.net == CashIn(ps, start)(t)
  {
    hide Contribution, RowsTotal, Owners, Lines;
    var lines, owners := Lines(ps, start, t), Owners(DocumentsOf(documents, t));
    OneOwner(DocumentsOf(documents, t));
    OneRow(lines, owners);
    LinesNetted(ps, start, t);
    ContributionBalances(lines, owners[0]);
    CashOfLines(ps, start, t);
  }

  lemma FlowsAdd(ts: set<nat>, flows: nat -> Flows)
    requires forall t | t in ts ::
               flows(t).operating + flows(t).investing + flows(t).financing + flows(t).unclassified == flows(t).net
    ensures SumOver(ts, (t: nat) => flows(t).operating) + SumOver(ts, (t: nat) => flows(t).investing)
            + SumOver(ts, (t: nat) => flows(t).financing) + SumOver(ts, (t: nat) => flows(t).unclassified)
            == SumOver(ts, (t: nat) => flows(t).net)
  {
    var a, b := (t: nat) => flows(t).operating, (t: nat) => flows(t).investing;
    var c, d := (t: nat) => flows(t).financing, (t: nat) => flows(t).unclassified;
    SumOverAdd(ts, a, b, (t: nat) => a(t) + b(t));
    SumOverAdd(ts, c, d, (t: nat) => c(t) + d(t));
    SumOverAdd(ts, (t: nat) => a(t) + b(t), (t: nat) => c(t) + d(t), (t: nat) => flows(t).net);
  }

  /** For every ledger whose nets are debit less credit, without ambiguous ownership: beginning cash plus the net cash
      flow is ending cash, and the categories make up the net cash flow. */
  lemma SummaryReconciles(ps: seq<Posting>, start: int, documents: map<nat, Documents>)
    requires Netted(ps) && !Ambiguous(ps, start, documents)
    ensures var s := Totals(ps, start, documents);
            && s.beginning + s.flows.net == s.ending
            && s.flows.operating + s.flows.investing + s.flows.financing + s.flows.unclassified == s.flows.net
  {
    hide TransactionFlows, Ambiguous, Netted, Transactions;
    var ts := Transactions(ps, start);
    var flows := (t: nat) => TransactionFlows(ps, start, documents, t);
    forall t | t in ts
      ensures flows(t).operating + flows(t).investing + flows(t).financing + flows(t).unclassified == flows(t).net
      ensures flows(t).net == CashIn(ps, start)(t)
    {
      TransactionBalances(ps, start, documents, t);
    }
    FlowsAdd(ts, flows);
    PeriodFlows(ps, start, documents, flows);
    SumOverAgree(ts, (t: nat) => flows(t).net, CashIn(ps, start));
    CashGrouped(ps, start, ts);
    CashBeforeAndIn(ps, start);
  }

  /** The period's five sums are those over its transactions' flows. */
  lemma PeriodFlows(ps: seq<Posting>, start: int, documents: map<nat, Documents>, flows: nat -> Flows)
    requires forall t | t in Transactions(ps, start) :: flows(t) == TransactionFlows(ps, start, documents, t)
    ensures var ts := Transactions(ps, start); var f := Totals(ps, start, documents).flows;
            && f.operating == SumOver(ts, (t: nat) => flows(t).operating)
            && f.investing == SumOver(ts, (t: nat) => flows(t).investing)
            && f.financing == SumOver(ts, (t: nat) => flows(t).financing)
            && f.unclassified == SumOver(ts, (t: nat) => flows(t).unclassified)
            && f.net == SumOver(ts, (t: nat) => flows(t).net)
  {
    hide TransactionFlows, Transactions;
    var ts := Transactions(ps, start);
    PartAgrees(ps, start, documents, flows, (f: Flows) => f.operating, (t: nat) => flows(t).operating);
    PartAgrees(ps, start, documents, flows, (f: Flows) => f.investing, (t: nat) => flows(t).investing);
    PartAgrees(ps, start, documents, flows, (f: Flows) => f.financing, (t: nat) => flows(t).financing);
    PartAgrees(ps, start, documents, flows, (f: Flows) => f.unclassified, (t: nat) => flows(t).unclassified);
    PartAgrees(ps, start, documents, flows, (f: Flows) => f.net, (t: nat) => flows(t).net);
  }

  lemma PartAgrees(ps: seq<Posting>, start: int, documents: map<nat, Documents>, flows: nat -> Flows,
                   part: Flows -> int, g: nat -> int)
    requires forall t | t in Transactions(ps, start) :: flows(t) == TransactionFlows(ps, start, documents, t)
    requires forall t :: g(t) == part(flows(t))
    ensures PeriodFlow(ps, start, documents, part) == SumOver(Transactions(ps, start), g)
  {
    hide TransactionFlows, Transactions;
    SumOverAgree(Transactions(ps, start), (t: nat) => part(TransactionFlows(ps, start, documents, t)), g);
  }

  /** The cash posting of the period belongs to a transaction that two documents of a kind own. */
  ghost predicate OwnedTwice(ps: seq<Posting>, start: int, documents: map<nat, Documents>, p: Posting) {
    && p in ps && p.date >= start && p.role == Some(Cash) && p.tx in documents
    && (|documents[p.tx].receipts| >= 2 || |documents[p.tx].natives| >= 2)
  }

  lemma AmbiguousIff(ps: seq<Posting>, start: int, documents: map<nat, Documents>)
    ensures Ambiguous(ps, start, documents) <==> exists p :: OwnedTwice(ps, start, documents, p)
  {
    if Ambiguous(ps, start, documents) {
      var t :| t in Transactions(ps, start)
               && (|DocumentsOf(documents, t).receipts| > 1 || |DocumentsOf(documents, t).natives| > 1);
      var p :| p in ps && p.date >= start && IsCash(p) && p.tx == t;
      assert OwnedTwice(ps, start, documents, p);
    }
    if p :| OwnedTwice(ps, start, documents, p) {
      assert p.tx in Transactions(ps, start);
    }
  }

  /** The guard on unreconciled totals is unreachable: the summary is refused exactly for ambiguous ownership. */
  lemma OnlyAmbiguityRefuses(ps: seq<Posting>, start: int, documents: map<nat, Documents>)
    requires Netted(ps)
    ensures ReadCashFlowSummary(ps, start, documents).Err? <==> exists p :: OwnedTwice(ps, start, documents, p)
    ensures ReadCashFlowSummary(ps, start, documents) != Err(DoesNotReconcile)
  {
    hide Totals, Ambiguous, Netted, OwnedTwice;
    AmbiguousIff(ps, start, documents);
    if !Ambiguous(ps, start, documents) { SummaryReconciles(ps, start, documents); }
  }

  /** The ownership test is needed: a transaction joined to two receipts enters the totals twice. */
  lemma AmbiguityBreaksReconciliation()
    ensures exists ps, start, documents ::
              Netted(ps) && Ambiguous(ps, start, documents) && !Reconciles(Totals(ps, start, documents))
  {
    hide TransactionFlows;
    var cash := Posting(0, 1, 100, 0, 100, Some(Cash));
    var sale := Posting(0, 1, 0, 100, -100, Some(Flow(Operating)));
    var ps := [cash, sale];
    var receipt := Receipt(Some(Operating), 100, 1);
    var documents := map[0 := Documents([receipt, receipt], [])];
    assert cash in ps && Transactions(ps, 0) == {0};
    TwoPostings(cash, sale);
    TwoReceipts(ps, 0, receipt, documents);
    var net := (t: nat) => TransactionFlows(ps, 0, documents, t).net;
    SumOverRemove<nat>({0}, net, 0);
    assert SumOver<nat>({0} - {0}, net) == 0 by { assert {0} - {0} == {}; }
    PartAgrees(ps, 0, documents, (t: nat) => TransactionFlows(ps, 0, documents, t), (f: Flows) => f.net, net);
    assert Totals(ps, 0, documents).flows.net == 200;
    assert Ambiguous(ps, 0, documents) && Netted(ps);
  }

  lemma TwoPostings(cash: Posting, sale: Posting)
    requires cash == Posting(0, 1, 100, 0, 100, Some(Cash))
             && sale == Posting(0, 1, 0, 100, -100, Some(Flow(Operating)))
    ensures var ps := [cash, sale];
            && NetWhere(ps, (p: Posting) => IsCash(p)) == 100
            && NetWhere(ps, (p: Posting) => IsCash(p) && p.date < 0) == 0
            && NetWhere(ps, (p: Posting) => IsCash(p) && InTransaction(p, 0, 0)) == 100
  {
    NetOfTwo(cash, sale, (p: Posting) => IsCash(p));
    NetOfTwo(cash, sale, (p: Posting) => IsCash(p) && p.date < 0);
    NetOfTwo(cash, sale, (p: Posting) => IsCash(p) && InTransaction(p, 0, 0));
  }

  lemma NetOfTwo(a: Posting, b: Posting, keep: Posting -> bool)
    ensures NetWhere([a, b], keep) == (if keep(a) then a.net else 0) + (if keep(b) then b.net else 0)
  {
    assert [a, b][..1] == [a] && [a][..0] == [];
    assert NetWhere([a], keep) == NetWhere([], keep) + if keep(a) then a.net else 0;
  }

  /** Two receipts make two result rows, and each counts the transaction's whole cash movement. */
  lemma TwoReceipts(ps: seq<Posting>, t: nat, receipt: Receipt, documents: map<nat, Documents>)
    requires t in documents && documents[t] == Documents([receipt, receipt], [])
    ensures TransactionFlows(ps, 0, documents, t).net
            == 2 * NetWhere(ps, (p: Posting) => IsCash(p) && InTransaction(p, 0, t))
  {
    hide Classify, Resolved, Lines, CashNet;
    var o := Owner(Some(receipt), None);
    var lines := Lines(ps, 0, t);
    CashOfLines(ps, 0, t);
    assert Owners(documents[t]) == [o, o];
    assert [o, o][..1] == [o] && [o][..0] == [];
    assert RowsTotal(lines, [o]) == Plus(RowsTotal(lines, []), Contribution(lines, o));
    assert RowsTotal(lines, [o, o]) == Plus(RowsTotal(lines, [o]), Contribution(lines, o));
  }

  // ---- inherited roles ----

  /** The accounts and roles found after n steps of the recursion that hands a policy account's role to its children. */
  ghost function Handed(policy: map<nat, Role>, definitions: set<nat>, up: map<nat, nat>, n: nat): set<(nat, Role)> {
    if n == 0 then set q | q in policy && q in definitions :: (q, policy[q])
    else set c, h | h in Handed(policy, definitions, up, n - 1) && c in up.Keys && up[c] == h.0 :: (c, h.1)
  }

  /** Looking upward for the nearest account with a policy, within n links. */
  function NearestRole(policy: map<nat, Role>, up: map<nat, nat>, k: nat, n: nat): Option<Role>
    decreases n
  {
    if k in policy then Some(policy[k])
    else if k in up && n > 0 then NearestRole(policy, up, up[k], n - 1)
    else None
  }

  /** An account is handed a role after n steps exactly when its n-th ancestor has that role as its policy. */
  lemma {:induction false} HandedMeans(policy: map<nat, Role>, definitions: set<nat>, up: map<nat, nat>, n: nat, k: nat,
                                       r: Role)
    requires policy.Keys <= definitions
    ensures (k, r) in Handed(policy, definitions, up, n)
            <==> Ancestor(up, k, n).Some? && Ancestor(up, k, n).value in policy && policy[Ancestor(up, k, n).value] == r
  {
    if n > 0 && k in up { HandedMeans(policy, definitions, up, n - 1, up[k], r); }
  }

  ghost predicate AtFirst(policy: map<nat, Role>, up: map<nat, nat>, k: nat, r: Role, n: nat) {
    && Ancestor(up, k, n).Some? && Ancestor(up, k, n).value in policy && policy[Ancestor(up, k, n).value] == r
    && forall m: nat | m < n :: Ancestor(up, k, m).Some? ==> Ancestor(up, k, m).value !in policy
  }

  lemma {:induction false} NearestIsFirst(policy: map<nat, Role>, up: map<nat, nat>, k: nat, bound: nat)
    requires Ancestor(up, k, bound).None?
    ensures NearestRole(policy, up, k, bound).Some? ==>
              exists n: nat :: AtFirst(policy, up, k, NearestRole(policy, up, k, bound).value, n)
    ensures NearestRole(policy, up, k, bound).None? ==>
              forall n: nat | Ancestor(up, k, n).Some? :: Ancestor(up, k, n).value !in policy
    decreases bound
  {
    if k in policy {
      assert AtFirst(policy, up, k, policy[k], 0);
    } else if k in up {
      NearestIsFirst(policy, up, up[k], bound - 1);
      var nearest := NearestRole(policy, up, up[k], bound - 1);
      if nearest.Some? {
        var n: nat :| AtFirst(policy, up, up[k], nearest.value, n);
        forall m: nat | m < n + 1 ensures Ancestor(up, k, m).Some? ==> Ancestor(up, k, m).value !in policy {
          if m > 0 { assert Ancestor(up, k, m) == Ancestor(up, up[k], m - 1); }
        }
        assert AtFirst(policy, up, k, nearest.value, n + 1);
      } else {
        forall n: nat | Ancestor(up, k, n).Some? ensures Ancestor(up, k, n).value !in policy {
          if n > 0 { assert Ancestor(up, k, n) == Ancestor(up, up[k], n - 1); }
        }
      }
    }
  }

  lemma FirstIsUnique(policy: map<nat, Role>, up: map<nat, nat>, k: nat, r: Role, n: nat, s: Role, m: nat)
    requires AtFirst(policy, up, k, r, n) && AtFirst(policy, up, k, s, m)
    ensures r == s && n == m
  {
  }

  /** The role is handed to the account after n steps, and none after fewer. */
  ghost predicate HandedFirst(policy: map<nat, Role>, definitions: set<nat>, up: map<nat, nat>, k: nat, r: Role, n: nat)
  {
    && (k, r) in Handed(policy, definitions, up, n)
    && forall m: nat, s | m < n :: (k, s) !in Handed(policy, definitions, up, m)
  }

  /** Keeping the row of least depth among all handed roles gives every account exactly the role of its nearest
      ancestor, itself included, that has a policy. */
  lemma LeastDepthIsNearest(policy: map<nat, Role>, definitions: set<nat>, up: map<nat, nat>, k: nat, bound: nat,
                            r: Role)
    requires policy.Keys <= definitions && Ancestor(up, k, bound).None?
    ensures NearestRole(policy, up, k, bound) == Some(r) <==>
              exists n: nat :: HandedFirst(policy, definitions, up, k, r, n)
  {
    hide Handed, NearestRole;
    NearestIsFirst(policy, up, k, bound);
    var nearest := NearestRole(policy, up, k, bound);
    forall n: nat, s ensures (k, s) in Handed(policy, definitions, up, n)
        <==> Ancestor(up, k, n).Some? && Ancestor(up, k, n).value in policy && policy[Ancestor(up, k, n).value] == s
    {
      HandedMeans(policy, definitions, up, n, k, s);
    }
    if nearest == Some(r) {
      var n: nat :| AtFirst(policy, up, k, r, n);
      assert (k, r) in Handed(policy, definitions, up, n);
      assert HandedFirst(policy, definitions, up, k, r, n);
    } else if n: nat :| HandedFirst(policy, definitions, up, k, r, n) {
      assert forall m: nat | Ancestor(up, k, m).Some? && Ancestor(up, k, m).value in policy ::
          (k, policy[Ancestor(up, k, m).value]) in Handed(policy, definitions, up, m);
      assert AtFirst(policy, up, k, r, n);
      if nearest.Some? {
        var m: nat :| AtFirst(policy, up, k, nearest.value, m);
        FirstIsUnique(policy, up, k, r, n, nearest.value, m);
      }
    }
  }
}
