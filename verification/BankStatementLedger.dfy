/** Cleared postings are the ledger's own: their dates and amounts, and so the completed balances, are those of the
    canonical ledger (src/bank-statements.ts). */
module BankStatementLedger {
  import opened Sums
  import opened BankStatements
  import opened BankStatementBalance

  /** An accepted prepare that is not a repetition. */
  ghost predicate Prepares(st: State, c: Command, facts: Facts) {
    c.detail.Prepare? && c.key !in st.receipts && Execute(st, c, facts).1.Ok?
  }

  lemma PreparedClearings(st: State, c: Command, facts: Facts)
    requires Prepares(st, c, facts)
    ensures c.detail.adds <= facts.ledger.Keys
    ensures Execute(st, c, facts).0.clearings == (st.clearings - c.detail.removes) + NewClearings(c, facts)
  {
    hide NewRow, Project, Rows, NewClearings;
    assert forall p | p in c.detail.adds :: Eligible(facts, c.detail.account, c.detail.date, p);
  }

  /** A prepare clears each added posting on its statement with the ledger's date and amount, frees the removed ones,
      and leaves every other clearing as it was. */
  lemma PrepareClearsPostings(st: State, c: Command, facts: Facts)
    requires Prepares(st, c, facts)
    ensures c.detail.adds <= facts.ledger.Keys
    ensures var after := Execute(st, c, facts).0.clearings;
            && after.Keys == (st.clearings.Keys - c.detail.removes) + c.detail.adds
            && (forall p | p in c.detail.adds ::
                  after[p] == Clearing(c.statement, facts.ledger[p].date, facts.ledger[p].net))
            && (forall p | p in after && p !in c.detail.adds :: after[p] == st.clearings[p])
  {
    hide Execute;
    PreparedClearings(st, c, facts);
    var kept := st.clearings - c.detail.removes;
    assert kept.Keys == st.clearings.Keys - c.detail.removes;
  }

  /** It clears only posted ledger lines of the statement's account and the book's basis and currency, dated up to the
      statement's date and not cleared elsewhere, and frees only what the statement held. */
  lemma PreparedPostings(st: State, c: Command, facts: Facts)
    requires Prepares(st, c, facts)
    ensures facts.book.Some? && facts.book.value.currency == facts.currency && facts.dateAllowed
    ensures forall p | p in c.detail.adds ::
              && p in facts.ledger && p !in st.clearings && facts.ledger[p].posted && facts.ledger[p].net != 0
              && facts.ledger[p].account == c.detail.account && facts.ledger[p].basis == facts.book.value.basis
              && facts.ledger[p].currency == facts.currency && facts.ledger[p].date <= c.detail.date
    ensures forall p | p in c.detail.removes :: p in st.clearings && st.clearings[p].statement == c.statement
  {
    hide NewRow, Project, Rows, Commit;
    forall p | p in c.detail.adds ensures p !in st.clearings {
      assert Eligible(facts, c.detail.account, c.detail.date, p) && p !in st.clearings - c.detail.removes;
      assert p in c.detail.adds * c.detail.removes || p !in c.detail.removes;
    }
  }

  // ---- runs over one ledger ----

  type Ledger = map<nat, LedgerPosting>

  ghost predicate Reads(evs: seq<Event>, ledger: Ledger) {
    forall ev | ev in evs && ev.Do? :: ev.facts.ledger == ledger
  }

  /** Every clearing is a posted line of its statement's account, with its own date and amount. */
  ghost predicate FromLedger(st: State, ledger: Ledger) {
    forall p | p in st.clearings ::
      var k := st.clearings[p];
      && p in ledger && k.statement in st.statements && ledger[p].account == st.statements[k.statement].account
      && ledger[p].posted && k.date == ledger[p].date && k.amount == ledger[p].net != 0
  }

  lemma PreparedRow(st: State, c: Command, facts: Facts)
    requires Prepares(st, c, facts)
    ensures var after := Execute(st, c, facts).0;
            && c.statement in after.statements && after.statements[c.statement].account == c.detail.account
            && (c.statement in st.statements ==> st.statements[c.statement].account == c.detail.account)
            && forall s | s in st.statements && s != c.statement :: s in after.statements
                                                                    && after.statements[s] == st.statements[s]
  {
    hide Project, Rows, Eligible, HasDraft, IsLatest, NewClearings;
  }

  lemma PrepareStaysOnLedger(st: State, c: Command, facts: Facts)
    requires FromLedger(st, facts.ledger) && Prepares(st, c, facts)
    ensures FromLedger(Execute(st, c, facts).0, facts.ledger)
  {
    hide Execute;
    PrepareClearsPostings(st, c, facts);
    PreparedPostings(st, c, facts);
    PreparedRow(st, c, facts);
  }

  /** Everything but a prepare only takes clearings out, and moves no statement to another account. */
  lemma OthersOnlyFree(st: State, ev: Event)
    requires ev.Do? ==> !Prepares(st, ev.command, ev.facts)
    ensures forall p | p in Next(st, ev).clearings :: p in st.clearings && Next(st, ev).clearings[p] == st.clearings[p]
    ensures forall s | s in st.statements ::
              s in Next(st, ev).statements && Next(st, ev).statements[s].account == st.statements[s].account
  {
    hide Project, Rows, Eligible, HasDraft, HasDependent, PrepareEffect;
  }

  lemma {:induction false} RunsStayOnLedger(st: State, evs: seq<Event>, ledger: Ledger)
    requires FromLedger(st, ledger) && Reads(evs, ledger)
    ensures FromLedger(Run(st, evs), ledger)
    decreases evs
  {
    hide Next, FromLedger, Prepares;
    if evs != [] {
      assert evs[0] in evs;
      var ev := evs[0];
      if ev.Do? && Prepares(st, ev.command, ev.facts) {
        PrepareStaysOnLedger(st, ev.command, ev.facts);
        assert Next(st, ev) == Execute(st, ev.command, ev.facts).0 by { NextOf(st, ev.command, ev.facts); }
      } else {
        OthersStayOnLedger(st, ev, ledger);
      }
      assert forall e | e in evs[1..] :: e in evs;
      RunsStayOnLedger(Next(st, ev), evs[1..], ledger);
    }
  }

  lemma NextOf(st: State, c: Command, facts: Facts)
    ensures Next(st, Do(c, facts)) == Execute(st, c, facts).0
  {
    hide Execute;
  }

  lemma OthersStayOnLedger(st: State, ev: Event, ledger: Ledger)
    requires FromLedger(st, ledger) && (ev.Do? ==> !Prepares(st, ev.command, ev.facts))
    ensures FromLedger(Next(st, ev), ledger)
  {
    hide Next, Prepares;
    OthersOnlyFree(st, ev);
  }

  function NetIn(ledger: Ledger): nat -> int {
    p => if p in ledger then ledger[p].net else 0
  }

  /** Over one ledger, a completed statement's closing balance is the sum of the ledger's own net amounts over the
      postings cleared on the statement and its predecessors, all of them posted lines of the statement's account. */
  lemma ClosingIsLedgerSum(evs: seq<Event>, ledger: Ledger, s: nat)
    requires Reads(evs, ledger)
    requires s in Run(EMPTY, evs).statements && Run(EMPTY, evs).statements[s].status == Completed
    ensures var st := Run(EMPTY, evs);
            && Chained(st.statements)
            && var cleared := ClearedOn(st.clearings, Chain(st.statements, s));
               && st.statements[s].closing == SumOver(cleared, NetIn(ledger))
               && forall p | p in cleared ::
                    p in ledger && ledger[p].posted && ledger[p].account == st.statements[s].account
  {
    hide Run, SumOver;
    var st := Run(EMPTY, evs);
    ReachableBalances(evs, s);
    RunsStayOnLedger(EMPTY, evs, ledger);
    ChainFacts(st.statements, s);
    var cleared := ClearedOn(st.clearings, Chain(st.statements, s));
    SumOverAgree(cleared, AmountOf(st.clearings), NetIn(ledger));
  }
}
