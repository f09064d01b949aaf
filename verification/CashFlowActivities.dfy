/** Which activity of the cash-flow summary receives a transaction, and how much of it (src/cash-flow-summary.ts). */
module CashFlowActivities {
  import opened Wrappers
  import opened Sums
  import opened CashFlow
  import opened CashFlowLaws

  /** What a row of flows reports for one activity. */
  function Part(f: Flows, a: Activity): int {
    match a
    case Operating => f.operating
    case Investing => f.investing
    case Financing => f.financing
  }

  function SplitPart(s: Split, a: Activity): int {
    match a
    case Operating => s.operating
    case Investing => s.investing
    case Financing => s.financing
  }

  // ---- transactions without a document ----

  lemma {:induction false} StillActivity(lines: seq<Posting>, a: Activity)
    requires Netted(lines) && a !in Activities(lines)
    ensures Movement(lines, a) == 0
  {
    if lines != [] {
      var front, p := lines[..|lines| - 1], lines[|lines| - 1];
      assert p in lines && forall q | q in front :: q in lines;
      assert Activities(front) <= Activities(lines);
      StillActivity(front, a);
      assert p.role == Some(Flow(a)) && Moves(p) ==> a in Activities(lines);
    }
  }

  lemma {:induction false} NoCounterparts(lines: seq<Posting>)
    ensures CounterpartCount(lines) == 0 <==> forall p | p in lines :: IsCash(p) || !Moves(p)
  {
    if lines != [] {
      NoCounterparts(lines[..|lines| - 1]);
      assert forall p :: p in lines <==> p in lines[..|lines| - 1] || p == lines[|lines| - 1];
    }
  }

  /** Without unknown lines, no counterpart line moves exactly when there is no activity. */
  lemma NoActivities(lines: seq<Posting>)
    requires !HasUnknown(lines)
    ensures CounterpartCount(lines) == 0 <==> Activities(lines) == {}
  {
    hide CountWhere;
    NoCounterparts(lines);
    if Activities(lines) != {} {
      var a :| a in Activities(lines);
      var p :| p in lines && p.role == Some(Flow(a)) && Moves(p);
    }
    forall p | p in lines && !IsCash(p) && Moves(p) ensures p.role.value.activity in Activities(lines) {
      assert p.role.Some? && p.role.value.Flow?;
    }
  }

  lemma UnknownMoves(lines: seq<Posting>)
    requires HasUnknown(lines)
    ensures CounterpartCount(lines) > 0
  {
    NoCounterparts(lines);
  }

  /** Balanced, with a role for every line that moves, and of one activity at most or with every counterpart line on the
      other side of the cash movement. */
  predicate Known(lines: seq<Posting>) {
    && Net(lines) == 0 && !HasUnknown(lines)
    && (|Activities(lines)| <= 1
        || (CashNet(lines) < 0 && forall p | p in lines && p.role != Some(Cash) :: p.net >= 0)
        || (CashNet(lines) > 0 && forall p | p in lines && p.role != Some(Cash) :: p.net <= 0))
  }

  lemma KnownIff(lines: seq<Posting>)
    ensures Known(lines) <==> Net(lines) == 0 && !HasUnknown(lines) && (|Activities(lines)| <= 1 || OneSided(lines))
  {
    hide Net, CashNet, HasUnknown, Activities;
  }

  lemma KnownIsClassified(lines: seq<Posting>)
    requires Netted(lines)
    ensures Classify(lines, Owner(None, None)).Unclassified? <==> !Known(lines)
    ensures Classify(lines, Owner(None, None)).Single? ==> |Activities(lines)| == 1
    ensures Classify(lines, Owner(None, None)).Transfer? ==> Activities(lines) == {}
  {
    hide Net, CashNet, Movements, OneSided, Activities, HasUnknown, CountWhere, Known;
    KnownIff(lines);
    if HasUnknown(lines) {
      UnknownMoves(lines);
    } else {
      NoActivities(lines);
      if Net(lines) == 0 { MovementsAreCash(lines); }
      if Activities(lines) == {} { StillTotal(lines); }
    }
  }

  lemma StillTotal(lines: seq<Posting>)
    requires Netted(lines) && Activities(lines) == {}
    ensures Total(Movements(lines)) == 0
  {
    hide Movement;
    StillActivity(lines, Operating);
    StillActivity(lines, Investing);
    StillActivity(lines, Financing);
  }

  /** With one activity, the whole cash movement is that activity's movement. */
  lemma SoleActivity(lines: seq<Posting>, a: Activity)
    requires Netted(lines) && Net(lines) == 0 && !HasUnknown(lines) && Activities(lines) == {a}
    ensures OnlyActivity(Activities(lines)) == a
    ensures forall b: Activity :: Movement(lines, b) == if b == a then CashNet(lines) else 0
  {
    hide Movement, CashNet, Net, HasUnknown, Activities;
    MovementsAreCash(lines);
    forall b: Activity | b != a ensures Movement(lines, b) == 0 { StillActivity(lines, b); }
  }

  lemma OnlyOne(s: set<Activity>) returns (a: Activity)
    requires |s| == 1
    ensures s == {a}
  {
    a :| a in s;
    assert |s - {a}| == 0;
    assert s == {a};
  }

  /** A transaction without a document enters every activity with exactly minus the net of its own lines of that
      activity when it is known, and otherwise is unclassified with its whole cash movement. */
  lemma UndocumentedEnters(lines: seq<Posting>)
    requires Netted(lines)
    ensures var c := Contribution(lines, Owner(None, None));
            && c.unclassified == (if Known(lines) then 0 else CashNet(lines))
            && forall a: Activity :: Part(c, a) == if Known(lines) then Movement(lines, a) else 0
  {
    hide Movement, CashNet, Net, HasUnknown, Activities, OneSided, CountWhere, Known;
    KnownIsClassified(lines);
    var category := Classify(lines, Owner(None, None));
    if category.Single? {
      var a := OnlyOne(Activities(lines));
      KnownFacts(lines);
      SoleActivity(lines, a);
    } else if category.Transfer? {
      forall a: Activity ensures Movement(lines, a) == 0 { StillActivity(lines, a); }
    }
  }

  lemma KnownFacts(lines: seq<Posting>)
    requires Known(lines)
    ensures Net(lines) == 0 && !HasUnknown(lines)
  {
  }

  /** In particular, when all of its moving counterpart lines are of one activity, that activity gets the whole cash
      movement and the others nothing. */
  lemma OneActivityTakesAll(lines: seq<Posting>, a: Activity)
    requires Netted(lines) && Net(lines) == 0
    requires exists p :: p in lines && Moves(p) && !IsCash(p)
    requires forall p | p in lines && Moves(p) && !IsCash(p) :: p.role == Some(Flow(a))
    ensures var c := Contribution(lines, Owner(None, None));
            && c.net == CashNet(lines) && c.unclassified == 0
            && forall b: Activity :: Part(c, b) == if b == a then CashNet(lines) else 0
  {
    hide Movement, CashNet, Net, OneSided;
    KnownIff(lines);
    assert !HasUnknown(lines);
    assert Activities(lines) == {a};
    UndocumentedEnters(lines);
    SoleActivity(lines, a);
    ContributionBalances(lines, Owner(None, None));
  }

  // ---- transactions with a document ----

  /** One line and no other meets the condition. */
  ghost predicate JustOne(lines: seq<Posting>, keep: Posting -> bool) {
    exists i :: 0 <= i < |lines| && keep(lines[i]) && forall j | 0 <= j < |lines| && keep(lines[j]) :: j == i
  }

  lemma {:induction false} CountIsZero(lines: seq<Posting>, keep: Posting -> bool)
    ensures CountWhere(lines, keep) == 0 <==> forall j | 0 <= j < |lines| :: !keep(lines[j])
  {
    if lines != [] {
      CountIsZero(lines[..|lines| - 1], keep);
      assert forall j | 0 <= j < |lines| - 1 :: lines[..|lines| - 1][j] == lines[j];
    }
  }

  lemma {:induction false} CountIsOne(lines: seq<Posting>, keep: Posting -> bool)
    ensures CountWhere(lines, keep) == 1 <==> JustOne(lines, keep)
  {
    if lines != [] {
      var front, n := lines[..|lines| - 1], |lines| - 1;
      CountIsOne(front, keep);
      CountIsZero(front, keep);
      assert forall j | 0 <= j < n :: front[j] == lines[j];
      if JustOne(front, keep) && !keep(lines[n]) {
        var i :| 0 <= i < n && keep(front[i]) && forall j | 0 <= j < n && keep(front[j]) :: j == i;
        assert keep(lines[i]) && forall j | 0 <= j < |lines| && keep(lines[j]) :: j == i;
      }
      if JustOne(lines, keep) {
        var i :| 0 <= i < |lines| && keep(lines[i]) && forall j | 0 <= j < |lines| && keep(lines[j]) :: j == i;
        if i < n { assert keep(front[i]); }
      }
    }
  }

  /** The receipt is of the transaction: balanced, one cash line, the receipt's signed amount, and one counterpart line
      that moves. */
  ghost predicate ReceiptFits(lines: seq<Posting>, r: Receipt) {
    && Net(lines) == 0 && CashNet(lines) == r.sign * r.amount
    && JustOne(lines, (p: Posting) => p.role == Some(Cash))
    && JustOne(lines, (p: Posting) => p.role != Some(Cash) && (p.debit != 0 || p.credit != 0))
  }

  lemma {:induction false} CountAgrees(lines: seq<Posting>, f: Posting -> bool, g: Posting -> bool)
    requires forall p :: f(p) == g(p)
    ensures CountWhere(lines, f) == CountWhere(lines, g)
  {
    if lines != [] { CountAgrees(lines[..|lines| - 1], f, g); }
  }

  lemma ReceiptFitsIff(lines: seq<Posting>, r: Receipt)
    ensures ReceiptFits(lines, r) <==>
              Net(lines) == 0 && CashNet(lines) == r.sign * r.amount && CashCount(lines) == 1
              && CounterpartCount(lines) == 1
  {
    hide Net, CashNet, CountWhere, JustOne;
    var cash := (p: Posting) => p.role == Some(Cash);
    var counterpart := (p: Posting) => p.role != Some(Cash) && (p.debit != 0 || p.credit != 0);
    CountIsOne(lines, cash);
    CountIsOne(lines, counterpart);
    CountAgrees(lines, cash, p => IsCash(p));
    CountAgrees(lines, counterpart, p => !IsCash(p) && Moves(p));
  }

  /** A receipt's transaction enters the receipt's activity with its whole cash movement, whatever a payment says. */
  lemma ReceiptEnters(lines: seq<Posting>, r: Receipt, native: Option<Native>)
    ensures var c := Contribution(lines, Owner(Some(r), native));
            var fits := r.activity.Some? && ReceiptFits(lines, r);
            && c.unclassified == (if fits then 0 else CashNet(lines))
            && forall a: Activity :: Part(c, a) == if fits && a == r.activity.value then CashNet(lines) else 0
  {
    hide CashNet, Net, CountWhere, ReceiptFits;
    ReceiptFitsIff(lines, r);
  }

  predicate CorrectionFits(lines: seq<Posting>, n: Native, s: Split) {
    Net(lines) == 0 && n.controlsValid && CashNet(lines) == n.sign * n.amount
    && SplitPart(s, Operating) + SplitPart(s, Investing) + SplitPart(s, Financing) == n.amount
  }

  /** A corrected payment enters every activity with the payment's sign times the correction's part. */
  lemma CorrectionEnters(lines: seq<Posting>, n: Native, s: Split)
    requires n.correction == Some(s)
    ensures var c := Contribution(lines, Owner(None, Some(n)));
            && c.unclassified == (if CorrectionFits(lines, n, s) then 0 else CashNet(lines))
            && forall a: Activity ::
                 Part(c, a) == if CorrectionFits(lines, n, s) then n.sign * SplitPart(s, a) else 0
  {
    hide CashNet, Net;
  }

  predicate PaymentsFit(lines: seq<Posting>, n: Native, p: Payments) {
    Net(lines) == 0 && n.controlsValid && p.valid && CashNet(lines) == n.sign * n.amount && p.applied == n.amount
    && -n.sign * (SplitPart(p.split, Operating) + SplitPart(p.split, Investing) + SplitPart(p.split, Financing))
       == CashNet(lines)
  }

  /** A payment without a correction enters every activity with minus its sign times the cleared part, and is
      unclassified without clearing allocations that fit it. */
  lemma PaymentEnters(lines: seq<Posting>, n: Native)
    requires n.correction.None?
    ensures var c := Contribution(lines, Owner(None, Some(n)));
            var fits := n.payments.Some? && PaymentsFit(lines, n, n.payments.value);
            && c.unclassified == (if fits then 0 else CashNet(lines))
            && forall a: Activity :: Part(c, a) == if fits then -n.sign * SplitPart(n.payments.value.split, a) else 0
  {
    hide CashNet, Net;
  }

  // ---- the summary's totals ----

  /** What a transaction brings to an activity, by the kind of document that owns it. */
  ghost function Entered(lines: seq<Posting>, d: Documents, a: Activity): int {
    if d.receipts != [] then
      if d.receipts[0].activity == Some(a) && ReceiptFits(lines, d.receipts[0]) then CashNet(lines) else 0
    else if d.natives != [] then
      var n := d.natives[0];
      match n.correction
      case Some(s) => if CorrectionFits(lines, n, s) then n.sign * SplitPart(s, a) else 0
      case None =>
        match n.payments
        case Some(p) => if PaymentsFit(lines, n, p) then -n.sign * SplitPart(p.split, a) else 0
        case None => 0
    else if Known(lines) then Movement(lines, a)
    else 0
  }

  lemma OwnerOf(d: Documents)
    requires |d.receipts| <= 1 && |d.natives| <= 1
    ensures |Owners(d)| == 1
    ensures Owners(d)[0] == Owner(if d.receipts == [] then None else Some(d.receipts[0]),
                                  if d.natives == [] then None else Some(d.natives[0]))
  {
    if |d.receipts| == 1 && |d.natives| == 1 {
      assert Crossed(d.receipts[..0], d.natives) == [];
    }
  }

  lemma TransactionEnters(lines: seq<Posting>, d: Documents, a: Activity)
    requires Netted(lines) && |d.receipts| <= 1 && |d.natives| <= 1
    ensures Part(RowsTotal(lines, Owners(d)), a) == Entered(lines, d, a)
  {
    hide Contribution, RowsTotal, Owners, Known, ReceiptFits, CorrectionFits, PaymentsFit, Movement, CashNet, Netted;
    OwnerOf(d);
    OneRow(lines, Owners(d));
    if d.receipts != [] {
      ReceiptEnters(lines, d.receipts[0], Owners(d)[0].native);
    } else if d.natives != [] {
      var n := d.natives[0];
      if n.correction.Some? { CorrectionEnters(lines, n, n.correction.value); } else { PaymentEnters(lines, n); }
    } else {
      UndocumentedEnters(lines);
    }
  }

  /** Without ambiguous ownership each activity's total is the sum of what its transactions bring to it. */
  lemma ActivityTotals(ps: seq<Posting>, start: int, documents: map<nat, Documents>, a: Activity)
    requires Netted(ps) && !Ambiguous(ps, start, documents)
    ensures Part(Totals(ps, start, documents).flows, a)
            == SumOver(Transactions(ps, start), (t: nat) => Entered(Lines(ps, start, t), DocumentsOf(documents, t), a))
  {
    hide Entered, RowsTotal, Owners, Lines, Transactions;
    var ts := Transactions(ps, start);
    var flows := (t: nat) => TransactionFlows(ps, start, documents, t);
    var entered := (t: nat) => Entered(Lines(ps, start, t), DocumentsOf(documents, t), a);
    PeriodFlows(ps, start, documents, flows);
    forall t | t in ts ensures Part(flows(t), a) == entered(t) {
      LinesNetted(ps, start, t);
      TransactionEnters(Lines(ps, start, t), DocumentsOf(documents, t), a);
    }
    match a {
      case Operating => SumOverAgree(ts, (t: nat) => flows(t).operating, entered);
      case Investing => SumOverAgree(ts, (t: nat) => flows(t).investing, entered);
      case Financing => SumOverAgree(ts, (t: nat) => flows(t).financing, entered);
    }
  }

  // ---- ledgers without documents ----

  lemma {:induction false} MovementOfLines(ps: seq<Posting>, start: int, t: nat, a: Activity)
    ensures Movement(Lines(ps, start, t), a)
            == -NetWhere(ps, (p: Posting) => p.role == Some(Flow(a)) && InTransaction(p, start, t))
  {
    if ps != [] {
      var front, p := ps[..|ps| - 1], ps[|ps| - 1];
      MovementOfLines(front, start, t, a);
      var lines := Lines(front, start, t);
      assert (lines + [p])[..|lines|] == lines;
      assert lines + [] == lines;
    }
  }

  ghost function FlowIn(ps: seq<Posting>, start: int, a: Activity): nat -> int {
    (t: nat) => NetWhere(ps, (p: Posting) => p.role == Some(Flow(a)) && InTransaction(p, start, t))
  }

  lemma {:induction false} FlowGrouped(ps: seq<Posting>, start: int, ts: set<nat>, a: Activity)
    ensures SumOver(ts, FlowIn(ps, start, a))
            == NetWhere(ps, (p: Posting) => p.role == Some(Flow(a)) && p.date >= start && p.tx in ts)
  {
    if ps == [] {
      SumOverZero(ts, FlowIn(ps, start, a));
    } else {
      var front, p := ps[..|ps| - 1], ps[|ps| - 1];
      FlowGrouped(front, start, ts, a);
      if p.role == Some(Flow(a)) && p.date >= start && p.tx in ts {
        SumOverChanged(ts, FlowIn(front, start, a), FlowIn(ps, start, a), p.tx);
      } else {
        SumOverAgree(ts, FlowIn(front, start, a), FlowIn(ps, start, a));
      }
    }
  }

  lemma {:induction false} NegatedSum(ts: set<nat>, f: nat -> int, g: nat -> int)
    requires forall t | t in ts :: g(t) == -f(t)
    ensures SumOver(ts, g) == -SumOver(ts, f)
  {
    SumOverAdd(ts, f, g, (t: nat) => f(t) + g(t));
    SumOverZero(ts, (t: nat) => f(t) + g(t));
  }

  /** Without documents and with every cash transaction known, each activity's total is minus the net of the period's
      own postings of that activity in cash transactions. */
  lemma KnownLedgerTotals(ps: seq<Posting>, start: int, documents: map<nat, Documents>, a: Activity)
    requires Netted(ps)
    requires forall t | t in Transactions(ps, start) ::
               DocumentsOf(documents, t) == Documents([], []) && Known(Lines(ps, start, t))
    ensures var ts := Transactions(ps, start);
            Part(Totals(ps, start, documents).flows, a)
            == -NetWhere(ps, (p: Posting) => p.role == Some(Flow(a)) && p.date >= start && p.tx in ts)
  {
    hide Known, Lines, Transactions, Totals, Netted, Movement;
    var ts := Transactions(ps, start);
    ActivityTotals(ps, start, documents, a);
    var entered := (t: nat) => Entered(Lines(ps, start, t), DocumentsOf(documents, t), a);
    forall t | t in ts ensures entered(t) == -FlowIn(ps, start, a)(t) { MovementOfLines(ps, start, t, a); }
    NegatedSum(ts, FlowIn(ps, start, a), entered);
    SumOverAgree(ts, entered, (t: nat) => Entered(Lines(ps, start, t), DocumentsOf(documents, t), a));
    FlowGrouped(ps, start, ts, a);
  }
}
