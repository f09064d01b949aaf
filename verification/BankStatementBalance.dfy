/** In every reachable state statements chain correctly and completed balances add up to cleared postings. */
module BankStatementBalance {
  import opened Wrappers
  import opened Sums
  import opened BankStatements

  datatype Event =
    | Do(command: Command, facts: Facts)
    | RetireAttempt(attempt: Command, operation: Operation, provenance: bool)

  ghost function Next(st: State, ev: Event): State {
    match ev
    case Do(c, facts) => Execute(st, c, facts).0
    case RetireAttempt(c, o, provenance) => Retire(st, c, o, provenance).0
  }

  ghost function Run(st: State, evs: seq<Event>): State
    decreases evs
  {
    if evs == [] then st else Run(Next(st, evs[0]), evs[1..])
  }

  // ---- the invariant ----

  /** Each statement opens where its predecessor closed; a predecessor in use stays completed. */
  ghost predicate LinkOk(statements: map<nat, Statement>, s: nat)
    requires s in statements
  {
    var row := statements[s];
    && row.created < |statements|
    && match row.previous
       case None => row.opening == 0
       case Some(p) =>
         && p in statements && statements[p].created < row.created && statements[p].account == row.account
         && (row.status != Cancelled ==> statements[p].status == Completed && row.opening == statements[p].closing)
  }

  ghost predicate Chained(statements: map<nat, Statement>) {
    forall s | s in statements :: LinkOk(statements, s)
  }

  ghost predicate Balanced(st: State) {
    forall s | s in st.statements && st.statements[s].status == Completed ::
      st.statements[s].closing == st.statements[s].opening + SelectedAmount(st.clearings, s)
  }

  ghost predicate ClearingsOk(st: State) {
    forall p | p in st.clearings ::
      var s := st.clearings[p].statement;
      s in st.statements && st.statements[s].status != Cancelled && st.clearings[p].date <= st.statements[s].date
  }

  ghost predicate RowsOk(statements: map<nat, Statement>) {
    && (forall s | s in statements :: statements[s].version >= 1)
    && (forall s | s in statements :: statements[s].status == Completed <==> statements[s].completedBy.Some?)
    && (forall s | s in statements :: statements[s].completedBy != Some(statements[s].preparedBy))
    && (forall s, t | s in statements && t in statements && s != t ::
          statements[s].status == statements[t].status == Draft ==> statements[s].account != statements[t].account)
  }

  ghost predicate Valid(st: State) {
    Chained(st.statements) && Balanced(st) && ClearingsOk(st) && RowsOk(st.statements)
  }

  // ---- what every effect does ----

  ghost predicate KeepsIdentity(old_: Statement, row: Statement) {
    && row.account == old_.account && row.opening == old_.opening && row.previous == old_.previous
    && row.created == old_.created && row.version == old_.version + 1
  }

  /** A new row starts a draft at version one, opening where the account's latest completed statement closed. */
  ghost predicate StartsDraft(statements: map<nat, Statement>, row: Statement) {
    && row.status == Draft && row.version == 1 && row.created == |statements| && row.completedBy == None
    && match row.previous
       case None =>
         && row.opening == 0
         && forall s | s in statements :: statements[s].account == row.account ==> statements[s].status != Completed
       case Some(p) =>
         IsLatest(statements, row.account, p) && row.opening == statements[p].closing && statements[p].date < row.date
  }

  ghost predicate GoodEffect(st: State, c: Command, e: Effect) {
    var x, row := c.statement, e.row;
    && e.removed <= SelectedIds(st.clearings, x)
    && (forall p | p in e.added :: p !in st.clearings && e.added[p].statement == x && e.added[p].date <= row.date)
    && (forall p | p in st.clearings - e.removed :: st.clearings[p].statement == x ==> st.clearings[p].date <= row.date)
    && (x !in st.statements ==> StartsDraft(st.statements, row) && e.removed == {})
    && (x in st.statements ==>
          var old_ := st.statements[x];
          && KeepsIdentity(old_, row)
          && old_.status != Cancelled
          && (old_.status == Completed ==> !HasDependent(st.statements, x) && row.status == Draft)
          && (row.status == Completed ==>
                e.removed == {} && e.added == map[] && row.closing == row.opening + SelectedAmount(st.clearings, x)))
    && (row.status == Draft ==> !HasDraft(st.statements, row.account, x))
    && (row.status == Cancelled ==> e.removed == SelectedIds(st.clearings, x) && e.added == map[])
    && (row.status == Completed <==> row.completedBy.Some?)
    && row.completedBy != Some(row.preparedBy)
  }

  lemma LatestExists(statements: map<nat, Statement>, account: nat, s: nat)
    requires s in statements && statements[s].account == account && statements[s].status == Completed
    ensures exists p :: IsLatest(statements, account, p)
  {
    var all := set q | q in statements && statements[q].account == account && statements[q].status == Completed;
    assert s in all;
    var p := LatestIn(statements, all);
    assert IsLatest(statements, account, p);
  }

  lemma {:induction false} LatestIn(statements: map<nat, Statement>, all: set<nat>) returns (p: nat)
    requires all != {} && all <= statements.Keys
    ensures p in all
    ensures forall q | q in all ::
              statements[q].date < statements[p].date || (statements[q].date == statements[p].date && q <= p)
    decreases all
  {
    var x :| x in all;
    p := x;
    if all - {x} != {} {
      var y := LatestIn(statements, all - {x});
      if statements[x].date < statements[y].date || (statements[x].date == statements[y].date && x < y) { p := y; }
    }
    assert forall q | q in all :: q == x || q in all - {x};
  }

  lemma NewRowGood(st: State, c: Command)
    requires Valid(st) && c.detail.Prepare? && NewRow(st, c).Ok?
    ensures var row := NewRow(st, c).value;
            && row.account == c.detail.account && row.date == c.detail.date && row.status == Draft
            && row.completedBy == None
            && !HasDraft(st.statements, row.account, c.statement)
            && (c.statement !in st.statements ==> StartsDraft(st.statements, row) && c.detail.removes == {})
            && (c.statement in st.statements ==>
                  KeepsIdentity(st.statements[c.statement], row) && st.statements[c.statement].status == Draft)
  {
    if c.statement !in st.statements && !exists p :: IsLatest(st.statements, c.detail.account, p) {
      forall s | s in st.statements && st.statements[s].account == c.detail.account
        ensures st.statements[s].status != Completed
      {
        if st.statements[s].status == Completed { LatestExists(st.statements, c.detail.account, s); }
      }
    }
  }

  lemma PreparesAreGood(st: State, c: Command, facts: Facts)
    requires Valid(st) && !Contradictory(c) && c.detail.Prepare? && PrepareEffect(st, c, facts).Ok?
    ensures GoodEffect(st, c, PrepareEffect(st, c, facts).value)
  {
    hide NewRow, SelectedAmount, Chained, Balanced, RowsOk, StartsDraft, KeepsIdentity;
    NewRowGood(st, c);
    var kept := st.clearings - c.detail.removes;
    forall p | p in c.detail.adds ensures p !in st.clearings {
      assert Eligible(facts, c.detail.account, c.detail.date, p) && p !in kept;
      assert p in c.detail.adds * c.detail.removes || p !in c.detail.removes;
    }
  }

  lemma TransitionsAreGood(st: State, c: Command, facts: Facts)
    requires Valid(st) && !c.detail.Prepare? && TransitionEffect(st, c, facts).Ok?
    ensures GoodEffect(st, c, TransitionEffect(st, c, facts).value)
  {
    hide SelectedAmount, Chained, Balanced, StartsDraft;
    assert forall p | p in st.clearings && st.clearings[p].statement == c.statement ::
        st.clearings[p].date <= st.statements[c.statement].date;
  }

  lemma EffectsAreGood(st: State, c: Command, facts: Facts)
    requires Valid(st) && !Contradictory(c) && EffectOf(st, c, facts).Ok?
    ensures GoodEffect(st, c, EffectOf(st, c, facts).value)
  {
    hide Valid, GoodEffect, PrepareEffect, TransitionEffect;
    if c.detail.Prepare? { PreparesAreGood(st, c, facts); } else { TransitionsAreGood(st, c, facts); }
  }

  // ---- the invariant is kept ----

  lemma SameSelection(a: map<nat, Clearing>, b: map<nat, Clearing>, s: nat)
    requires SelectedIds(a, s) == SelectedIds(b, s)
    requires forall p | p in SelectedIds(a, s) :: a[p].amount == b[p].amount
    ensures SelectedAmount(a, s) == SelectedAmount(b, s)
  {
    SumOverAgree(SelectedIds(a, s), AmountOf(a), AmountOf(b));
  }

  /** A command only touches the selection of its own statement. */
  lemma OtherSelections(st: State, c: Command, e: Effect, s: nat)
    requires GoodEffect(st, c, e) && e.removed <= st.clearings.Keys
    requires s != c.statement || (e.removed == {} && e.added == map[])
    ensures SelectedAmount(Commit(st, c, e).0.clearings, s) == SelectedAmount(st.clearings, s)
  {
    hide Project, StartsDraft;
    var after := Commit(st, c, e).0.clearings;
    assert after == (st.clearings - e.removed) + e.added;
    assert SelectedIds(after, s) == SelectedIds(st.clearings, s);
    SameSelection(after, st.clearings, s);
  }

  lemma CommitStatements(st: State, c: Command, e: Effect)
    requires e.removed <= st.clearings.Keys
    ensures Commit(st, c, e).0.statements == st.statements[c.statement := e.row.(event := Some(c.key))]
  {
    hide Project, Rows;
  }

  lemma CommitKeepsChain(st: State, c: Command, e: Effect)
    requires Valid(st) && GoodEffect(st, c, e) && e.removed <= st.clearings.Keys
    ensures Chained(Commit(st, c, e).0.statements)
  {
    hide Project, SelectedAmount, SelectedIds, Commit, Balanced, ClearingsOk, RowsOk, HasDraft;
    CommitStatements(st, c, e);
    var x := c.statement;
    var after := Commit(st, c, e).0.statements;
    assert after == st.statements[x := e.row.(event := Some(c.key))];
    assert |st.statements| <= |after| && (x !in st.statements ==> |after| == |st.statements| + 1);
    forall s | s in after
      ensures LinkOk(after, s)
    {
      if s in st.statements { assert LinkOk(st.statements, s); }
      if s in st.statements && s != x {
        assert after[s].previous == Some(x) && after[s].status != Cancelled ==> HasDependent(st.statements, x);
      }
    }
  }

  lemma CommitKeepsBalance(st: State, c: Command, e: Effect)
    requires Valid(st) && GoodEffect(st, c, e) && e.removed <= st.clearings.Keys
    ensures Balanced(Commit(st, c, e).0)
  {
    hide Project, SelectedAmount;
    var after := Commit(st, c, e).0;
    forall s | s in after.statements && after.statements[s].status == Completed
      ensures after.statements[s].closing == after.statements[s].opening + SelectedAmount(after.clearings, s)
    {
      if s == c.statement { assert s in st.statements; }
      OtherSelections(st, c, e, s);
    }
  }

  lemma CommitKeepsClearings(st: State, c: Command, e: Effect)
    requires Valid(st) && GoodEffect(st, c, e) && e.removed <= st.clearings.Keys
    ensures ClearingsOk(Commit(st, c, e).0)
  {
    hide Project, SelectedAmount, Chained, RowsOk, StartsDraft, Balanced;
    var after := Commit(st, c, e).0;
    forall p | p in after.clearings
      ensures var s := after.clearings[p].statement;
              s in after.statements && after.statements[s].status != Cancelled
                && after.clearings[p].date <= after.statements[s].date
    {
      assert p in e.added || (p in st.clearings && p !in e.removed);
    }
  }

  lemma CommitKeepsRows(st: State, c: Command, e: Effect)
    requires RowsOk(st.statements) && GoodEffect(st, c, e) && e.removed <= st.clearings.Keys
    ensures RowsOk(Commit(st, c, e).0.statements)
  {
    hide Project, SelectedAmount, SelectedIds, Commit, HasDependent, IsLatest;
    CommitStatements(st, c, e);
    var after := Commit(st, c, e).0.statements;
    forall s, t | s in after && t in after && s != t && after[s].status == Draft && after[t].status == Draft
      ensures after[s].account != after[t].account
    {
      if s == c.statement || t == c.statement {
        assert !HasDraft(st.statements, e.row.account, c.statement);
      }
    }
  }

  lemma NextKeepsValid(st: State, ev: Event)
    requires Valid(st)
    ensures Valid(Next(st, ev))
  {
    hide Valid, EffectOf, Commit, Project;
    if ev.Do? {
      EffectWithinClearings(st, ev.command, ev.facts);
      if EffectOf(st, ev.command, ev.facts).Ok? && !Contradictory(ev.command) {
        var e := EffectOf(st, ev.command, ev.facts).value;
        EffectsAreGood(st, ev.command, ev.facts);
        CommitValid(st, ev.command, e);
      }
    } else {
      ReceiptsAside(st, Next(st, ev));
    }
  }

  lemma CommitValid(st: State, c: Command, e: Effect)
    requires Valid(st) && GoodEffect(st, c, e) && e.removed <= st.clearings.Keys
    ensures Valid(Commit(st, c, e).0)
  {
    hide Commit, GoodEffect;
    CommitKeepsChain(st, c, e);
    CommitKeepsBalance(st, c, e);
    CommitKeepsClearings(st, c, e);
    CommitKeepsRows(st, c, e);
  }

  lemma ReceiptsAside(a: State, b: State)
    requires Valid(a) && a.statements == b.statements && a.clearings == b.clearings
    ensures Valid(b)
  {
  }

  /** Every state that any run of commands and retirements reaches satisfies the invariant: in it each
      statement in use opens at its completed predecessor's closing balance. */
  lemma {:induction false} EveryRunIsValid(st: State, evs: seq<Event>)
    requires Valid(st)
    ensures Valid(Run(st, evs))
    decreases evs
  {
    hide Valid, Next;
    if evs != [] {
      NextKeepsValid(st, evs[0]);
      EveryRunIsValid(Next(st, evs[0]), evs[1..]);
    }
  }

  // ---- balances along the chain ----

  /** A statement and all its predecessors. */
  ghost function Chain(statements: map<nat, Statement>, s: nat): set<nat>
    requires Chained(statements) && s in statements
    decreases statements[s].created
  {
    assert LinkOk(statements, s);
    {s} + match statements[s].previous
          case None => {}
          case Some(p) => Chain(statements, p)
  }

  lemma {:induction false} ChainFacts(statements: map<nat, Statement>, s: nat)
    requires Chained(statements) && s in statements
    ensures Chain(statements, s) <= statements.Keys
    ensures forall q | q in Chain(statements, s) :: q == s || statements[q].created < statements[s].created
    ensures forall q | q in Chain(statements, s) :: statements[q].account == statements[s].account
    ensures statements[s].status != Cancelled ==>
              forall q | q in Chain(statements, s) :: q == s || statements[q].status == Completed
    decreases statements[s].created
  {
    assert LinkOk(statements, s);
    if statements[s].previous.Some? { ChainFacts(statements, statements[s].previous.value); }
  }

  /** The postings cleared on any statement of a set, each of them once. */
  ghost function ClearedOn(clearings: map<nat, Clearing>, statements: set<nat>): set<nat> {
    set p | p in clearings && clearings[p].statement in statements
  }

  /** A completed statement's closing balance is the sum of all postings cleared on it and on its whole
      predecessor chain. The sum ranges over a set of postings, so none is counted twice. */
  lemma {:induction false} ClosingIsSumOfClearedChain(st: State, s: nat)
    requires Valid(st) && s in st.statements && st.statements[s].status == Completed
    ensures st.statements[s].closing
            == SumOver(ClearedOn(st.clearings, Chain(st.statements, s)), AmountOf(st.clearings))
    decreases st.statements[s].created
  {
    hide RowsOk, ClearingsOk;
    assert LinkOk(st.statements, s);
    var f := AmountOf(st.clearings);
    match st.statements[s].previous {
      case None =>
        assert ClearedOn(st.clearings, Chain(st.statements, s)) == SelectedIds(st.clearings, s);
      case Some(p) =>
        ClosingIsSumOfClearedChain(st, p);
        ChainFacts(st.statements, p);
        var before := ClearedOn(st.clearings, Chain(st.statements, p));
        assert ClearedOn(st.clearings, Chain(st.statements, s)) == SelectedIds(st.clearings, s) + before;
        SumOverUnion(SelectedIds(st.clearings, s), before, f);
    }
  }

  /** The same over any run from the empty tables. */
  lemma ReachableBalances(evs: seq<Event>, s: nat)
    requires s in Run(EMPTY, evs).statements && Run(EMPTY, evs).statements[s].status == Completed
    ensures var st := Run(EMPTY, evs);
            && Chained(st.statements)
            && st.statements[s].closing
              == SumOver(ClearedOn(st.clearings, Chain(st.statements, s)), AmountOf(st.clearings))
  {
    assert Valid(EMPTY);
    EveryRunIsValid(EMPTY, evs);
    ClosingIsSumOfClearedChain(Run(EMPTY, evs), s);
  }
}
