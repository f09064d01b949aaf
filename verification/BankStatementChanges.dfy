/** When a statement command is carried out, and what it does to its statement's row (src/bank-statements.ts). */
module BankStatementChanges {
  import opened Wrappers
  import opened Sums
  import opened BankStatements
  import opened BankStatementBalance
  import opened BankStatementLedger

  /** The postings cleared on a statement, and their stored amounts. */
  function ClearedBy(st: State, s: nat): set<nat> {
    set p | p in st.clearings && st.clearings[p].statement == s
  }

  ghost function Cents(st: State): nat -> int {
    (p: nat) => if p in st.clearings then st.clearings[p].amount else 0
  }

  lemma CentsCleared(st: State, s: nat)
    ensures SumOver(ClearedBy(st, s), Cents(st)) == SelectedAmount(st.clearings, s)
    ensures |ClearedBy(st, s)| == |SelectedIds(st.clearings, s)|
  {
    assert ClearedBy(st, s) == SelectedIds(st.clearings, s);
    SumOverAgree(ClearedBy(st, s), Cents(st), AmountOf(st.clearings));
  }

  // ---- the causes ----

  /** The statement exists at the version the command expects, and the posting gate is open for its date. */
  predicate AtVersion(st: State, c: Command, facts: Facts, status: Status) {
    && facts.dateAllowed && c.statement in st.statements
    && st.statements[c.statement].version == c.expectedVersion && st.statements[c.statement].status == status
  }

  /** Someone other than the preparer, with nothing left between the opening and the closing balance. */
  ghost predicate Completes(st: State, c: Command, facts: Facts) {
    && c.detail.Complete? && AtVersion(st, c, facts, Draft)
    && var row := st.statements[c.statement];
    && row.preparedBy != c.actor && row.opening + SumOver(ClearedBy(st, c.statement), Cents(st)) == row.closing
  }

  /** Someone other than the completer, with a reason, and no later statement or other draft in the way. */
  predicate Reopens(st: State, c: Command, facts: Facts) {
    && c.detail.Reopen? && |c.reason| >= 10 && AtVersion(st, c, facts, Completed)
    && var row := st.statements[c.statement];
    && row.completedBy != Some(c.actor)
    && forall s | s in st.statements ::
         && (st.statements[s].previous == Some(c.statement) ==> st.statements[s].status == Cancelled)
         && (s != c.statement && st.statements[s].account == row.account ==> st.statements[s].status != Draft)
  }

  predicate Cancels(st: State, c: Command, facts: Facts) {
    c.detail.Cancel? && |c.reason| >= 10 && AtVersion(st, c, facts, Draft)
  }

  /** The removed postings are the statement's, the added ones posted lines of its account that are not cleared yet, and
      nothing it keeps is later than its date. */
  predicate Selects(st: State, c: Command, facts: Facts)
    requires c.detail.Prepare?
  {
    var d := c.detail;
    && |d.adds| <= 500 && |d.removes| <= 500 && (forall p | p in d.adds :: p !in d.removes)
    && facts.dateAllowed && facts.book.Some? && facts.book.value.currency == facts.currency
    && (forall p | p in d.removes :: p in st.clearings && st.clearings[p].statement == c.statement)
    && (forall p | p in d.adds ::
          && p !in st.clearings && p in facts.ledger
          && var l := facts.ledger[p];
          && l.account == d.account && l.basis == facts.book.value.basis && l.currency == facts.currency
          && l.date <= d.date && l.net != 0 && l.posted)
    && forall p | p in st.clearings && st.clearings[p].statement == c.statement && p !in d.removes ::
         st.clearings[p].date <= d.date
  }

  predicate Redrafts(st: State, c: Command, facts: Facts) {
    && c.detail.Prepare? && c.statement in st.statements && Selects(st, c, facts)
    && var row := st.statements[c.statement];
    row.status == Draft && row.version == c.expectedVersion && row.account == c.detail.account
  }

  /** A new statement of an account without a draft, later than every completed one, at version zero. */
  predicate Drafts(st: State, c: Command, facts: Facts) {
    && c.detail.Prepare? && c.statement !in st.statements && Selects(st, c, facts)
    && c.expectedVersion == 0 && c.detail.removes == {}
    && forall s | s in st.statements && st.statements[s].account == c.detail.account ::
         && st.statements[s].status != Draft
         && (st.statements[s].status == Completed ==> st.statements[s].date < c.detail.date)
  }

  // ---- when a command is carried out ----

  lemma SelectionIff(st: State, c: Command, facts: Facts)
    requires c.detail.Prepare?
    ensures Selects(st, c, facts) <==>
              && !Malformed(c) && !Contradictory(c) && facts.dateAllowed && facts.book.Some?
              && facts.book.value.currency == facts.currency
              && c.detail.removes <= SelectedIds(st.clearings, c.statement)
              && (forall p | p in c.detail.adds ::
                    Eligible(facts, c.detail.account, c.detail.date, p) && p !in st.clearings - c.detail.removes)
              && forall p | p in st.clearings - c.detail.removes ::
                   st.clearings[p].statement == c.statement ==> st.clearings[p].date <= c.detail.date
  {
    var d := c.detail;
    assert d.adds * d.removes == {} <==> forall p | p in d.adds :: p !in d.removes by {
      if forall p | p in d.adds :: p !in d.removes { assert d.adds * d.removes == {}; }
      forall p | p in d.adds && p in d.removes ensures d.adds * d.removes != {} { assert p in d.adds * d.removes; }
    }
    if d.adds * d.removes == {} {
      assert forall p | p in d.adds :: p in st.clearings - d.removes <==> p in st.clearings;
    }
  }

  lemma RowIff(st: State, c: Command)
    requires Valid(st) && c.detail.Prepare?
    ensures c.statement in st.statements ==>
              (NewRow(st, c).Ok? <==>
                 && st.statements[c.statement].status == Draft
                 && st.statements[c.statement].version == c.expectedVersion
                 && st.statements[c.statement].account == c.detail.account)
    ensures c.statement !in st.statements ==>
              (NewRow(st, c).Ok? <==>
                 && c.expectedVersion == 0 && c.detail.removes == {}
                 && forall s | s in st.statements && st.statements[s].account == c.detail.account ::
                      && st.statements[s].status != Draft
                      && (st.statements[s].status == Completed ==> st.statements[s].date < c.detail.date))
  {
    hide Valid;
    var account := c.detail.account;
    if c.statement !in st.statements {
      assert HasDraft(st.statements, account, c.statement)
             <==> exists s | s in st.statements ::
                    st.statements[s].account == account && st.statements[s].status == Draft;
      forall s | s in st.statements && st.statements[s].account == account && st.statements[s].status == Completed
        ensures exists p :: IsLatest(st.statements, account, p)
      {
        LatestExists(st.statements, account, s);
      }
    }
  }

  lemma PrepareIff(st: State, c: Command, facts: Facts)
    requires Valid(st) && c.detail.Prepare? && c.key !in st.receipts
    ensures Execute(st, c, facts).1.Ok? <==> Redrafts(st, c, facts) || Drafts(st, c, facts)
  {
    hide Valid, Selects, Malformed, Contradictory, Eligible, NewRow, Commit;
    SelectionIff(st, c, facts);
    RowIff(st, c);
  }

  lemma TransitionIff(st: State, c: Command, facts: Facts)
    requires !c.detail.Prepare? && c.key !in st.receipts
    ensures Execute(st, c, facts).1.Ok? <==>
              Completes(st, c, facts) || Reopens(st, c, facts) || Cancels(st, c, facts)
  {
    hide Commit, SelectedAmount, SelectedIds, SumOver, ClearedBy, Cents;
    CentsCleared(st, c.statement);
  }

  /** After any run, a command under an unused key is carried out exactly when it completes a balanced draft prepared by
      someone else, reopens a completed statement nothing depends on, cancels a draft, or selects eligible postings for
      a draft or for a new statement after all completed ones. */
  lemma CommandsAnsweredIff(evs: seq<Event>, c: Command, facts: Facts)
    requires c.key !in Run(EMPTY, evs).receipts
    ensures var st := Run(EMPTY, evs);
            Execute(st, c, facts).1.Ok? <==>
              Completes(st, c, facts) || Reopens(st, c, facts) || Cancels(st, c, facts)
              || Redrafts(st, c, facts) || Drafts(st, c, facts)
  {
    hide Execute, Run, Valid, AtVersion, Selects;
    EmptyIsValid();
    EveryRunIsValid(EMPTY, evs);
    if c.detail.Prepare? { PrepareIff(Run(EMPTY, evs), c, facts); } else { TransitionIff(Run(EMPTY, evs), c, facts); }
  }

  lemma EmptyIsValid()
    ensures Valid(EMPTY)
  {
  }

  // ---- what it does to the row ----

  /** A statement's balance before its first one is zero, and after that its latest completed closing balance. */
  ghost predicate Continues(st: State, row: Statement) {
    match row.previous
    case None =>
      && row.opening == 0
      && forall s | s in st.statements && st.statements[s].account == row.account ::
           st.statements[s].status != Completed
    case Some(p) =>
      && p in st.statements && st.statements[p].account == row.account && st.statements[p].status == Completed
      && row.opening == st.statements[p].closing
      && forall s | s in st.statements && st.statements[s].account == row.account
                    && st.statements[s].status == Completed ::
           st.statements[s].date < st.statements[p].date || (st.statements[s].date == st.statements[p].date && s <= p)
  }

  /** The row that the command leaves. */
  ghost predicate RowAfter(st: State, c: Command, row: Statement) {
    if c.statement in st.statements then
      var before := st.statements[c.statement].(version := row.version, event := Some(c.key));
      && row.version == st.statements[c.statement].version + 1
      && match c.detail
         case Prepare(_, date, closing, _, _) =>
           row == before.(date := date, closing := closing, preparedBy := c.actor)
         case Complete => row == before.(status := Completed, completedBy := Some(c.actor))
         case Reopen => row == before.(status := Draft, completedBy := None)
         case Cancel => row == before.(status := Cancelled, completedBy := None)
    else
      && c.detail.Prepare? && Continues(st, row) && row.account == c.detail.account && row.date == c.detail.date
      && row.closing == c.detail.closing && row.status == Draft && row.version == 1 && row.preparedBy == c.actor
      && row.completedBy == None && row.event == Some(c.key)
  }

  lemma PreparedRowAfter(st: State, c: Command, facts: Facts)
    requires Valid(st) && Prepares(st, c, facts)
    ensures c.statement in Execute(st, c, facts).0.statements
    ensures RowAfter(st, c, Execute(st, c, facts).0.statements[c.statement])
  {
    hide Valid, Project, Rows, Eligible, HasDraft, NewClearings, Continues, NewRow;
    NewRowAfter(st, c);
  }

  lemma NewRowAfter(st: State, c: Command)
    requires Valid(st) && c.detail.Prepare? && NewRow(st, c).Ok?
    ensures RowAfter(st, c, NewRow(st, c).value.(event := Some(c.key)))
  {
    hide Valid, HasDraft;
    NewRowGood(st, c);
  }

  lemma TransitionedRow(st: State, c: Command, facts: Facts)
    requires !c.detail.Prepare? && c.key !in st.receipts && Execute(st, c, facts).1.Ok?
    ensures c.statement in st.statements && c.statement in Execute(st, c, facts).0.statements
    ensures RowAfter(st, c, Execute(st, c, facts).0.statements[c.statement])
    ensures Execute(st, c, facts).0.clearings
            == if c.detail.Cancel? then st.clearings - ClearedBy(st, c.statement) else st.clearings
  {
    hide Project, Rows, HasDraft, HasDependent;
    assert ClearedBy(st, c.statement) == SelectedIds(st.clearings, c.statement);
  }

  lemma OtherRows(st: State, c: Command, facts: Facts, s: nat)
    requires s != c.statement
    ensures s in st.statements <==> s in Execute(st, c, facts).0.statements
    ensures s in st.statements ==> Execute(st, c, facts).0.statements[s] == st.statements[s]
  {
    hide Project, Rows, EffectOf;
    EffectWithinClearings(st, c, facts);
  }

  lemma ResultIsProjection(st: State, c: Command, facts: Facts)
    requires c.key !in st.receipts && Execute(st, c, facts).1.Ok?
    ensures var after, r := Execute(st, c, facts).0, Execute(st, c, facts).1.value;
            c.statement in after.statements && r == Project(after.clearings, c.statement, after.statements[c.statement])
  {
    hide Project, Rows, EffectOf;
    EffectWithinClearings(st, c, facts);
  }

  /** What a projected statement says: its row, the sum and number of its cleared postings, and what is left between its
      balances. */
  ghost predicate Describes(r: Projection, st: State, s: nat) {
    && s in st.statements
    && var row := st.statements[s];
    && r.statement == s && r.account == row.account && r.date == row.date && r.status == row.status
    && r.version == row.version && r.opening == row.opening && r.closing == row.closing
    && r.preparedBy == row.preparedBy && r.completedBy == row.completedBy && r.previous == row.previous
    && r.event == row.event
    && r.selectedAmount == SumOver(ClearedBy(st, s), Cents(st)) && r.selectedCount == |ClearedBy(st, s)|
    && r.opening + r.selectedAmount + r.difference == r.closing
  }

  lemma ProjectDescribes(st: State, s: nat)
    requires s in st.statements
    ensures Describes(Project(st.clearings, s, st.statements[s]), st, s)
  {
    hide SelectedAmount, SelectedIds, SumOver, ClearedBy, Cents;
    CentsCleared(st, s);
  }

  /** Whatever a carried out command does, it leaves its statement's row as its kind says, every other row as it was,
      the clearings as they were or without those it frees, and returns the statement as it then is. */
  lemma CommandLeaves(evs: seq<Event>, c: Command, facts: Facts)
    requires c.key !in Run(EMPTY, evs).receipts && Execute(Run(EMPTY, evs), c, facts).1.Ok?
    ensures var st := Run(EMPTY, evs); var (after, r) := Execute(st, c, facts);
            && c.statement in after.statements && RowAfter(st, c, after.statements[c.statement])
            && after.statements.Keys == st.statements.Keys + {c.statement}
            && (forall s | s in st.statements && s != c.statement :: after.statements[s] == st.statements[s])
            && (!c.detail.Prepare? ==>
                  after.clearings
                  == if c.detail.Cancel? then st.clearings - ClearedBy(st, c.statement) else st.clearings)
            && Describes(r.value, after, c.statement)
  {
    hide Execute, Run, Valid, RowAfter, Project, Describes, ClearedBy;
    EmptyIsValid();
    EveryRunIsValid(EMPTY, evs);
    var st := Run(EMPTY, evs);
    var after := Execute(st, c, facts).0;
    if c.detail.Prepare? { PreparedRowAfter(st, c, facts); } else { TransitionedRow(st, c, facts); }
    forall s | s != c.statement
      ensures (s in st.statements <==> s in after.statements)
              && (s in st.statements ==> after.statements[s] == st.statements[s])
    {
      OtherRows(st, c, facts, s);
    }
    assert forall s :: s in after.statements.Keys <==> s in st.statements.Keys + {c.statement};
    ResultIsProjection(st, c, facts);
    ProjectDescribes(after, c.statement);
  }
}
