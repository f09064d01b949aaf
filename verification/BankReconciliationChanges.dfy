/** When a bank line changes its status, in every reachable state, and what every active match was made of
    (src/bank-reconciliation.ts). */
module BankReconciliationChanges {
  import opened Wrappers
  import opened BankReconciliation
  import opened BankReconciliationLaws

  // ---- evidence keys already used lie behind the line's version ----

  ghost predicate KeyBehind(st: State, key: EventKey) {
    match key
    case Ingested(line) => line in st.lines
    case IgnoredAt(line, version) => line in st.lines && version < st.lines[line].version
    case MatchedBy(k) => k in st.matches
    case UnmatchedAt(k, _) => k in st.matches && !st.matches[k].active
    case UnignoredBy(_, _) => true
  }

  ghost predicate KeysBehind(st: State) {
    && (forall key | key in st.events :: KeyBehind(st, key))
    && (forall l | l in st.lines :: st.lines[l].version >= 1)
    && (forall k | k in st.matches :: st.matches[k].version >= 1)
  }

  lemma StepMovesOn(st: State, c: Command)
    ensures forall key | key in st.events :: key in Next(st, c).events
    ensures forall l | l in st.lines :: l in Next(st, c).lines && st.lines[l].version <= Next(st, c).lines[l].version
    ensures forall l | l in Next(st, c).lines && l !in st.lines :: Next(st, c).lines[l].version == 1
    ensures forall k | k in Next(st, c).matches ::
              Next(st, c).matches[k].version >= if k in st.matches then st.matches[k].version else 1
    ensures forall k | k in st.matches ::
              k in Next(st, c).matches && (!st.matches[k].active ==> !Next(st, c).matches[k].active)
  {
    hide LineActive, TransactionActive;
  }

  lemma NewKeyIsBehind(st: State, c: Command, key: EventKey)
    requires key in Next(st, c).events && key !in st.events
    ensures KeyBehind(Next(st, c), key)
  {
    hide LineActive, TransactionActive;
  }

  lemma StepKeepsKeysBehind(st: State, c: Command)
    requires KeysBehind(st)
    ensures KeysBehind(Next(st, c))
  {
    hide Step, Next;
    StepMovesOn(st, c);
    forall key | key in Next(st, c).events ensures KeyBehind(Next(st, c), key) {
      if key in st.events { assert KeyBehind(st, key); } else { NewKeyIsBehind(st, c, key); }
    }
  }

  lemma NothingIsBehind()
    ensures KeysBehind(EMPTY)
  {
  }

  lemma {:induction false} RunKeepsKeysBehind(cs: seq<Command>)
    ensures KeysBehind(Run(EMPTY, cs))
  {
    hide KeysBehind, Next;
    if cs == [] {
      NothingIsBehind();
    } else {
      RunKeepsKeysBehind(cs[..|cs| - 1]);
      StepKeepsKeysBehind(Run(EMPTY, cs[..|cs| - 1]), cs[|cs| - 1]);
    }
  }

  // ---- the causes ----

  /** A posted transaction of exactly the line's signed amount, in no other active match, under an unused key. */
  predicate Matches(st: State, c: Command, line: nat) {
    && line in st.lines && c.MatchLine? && c.line == line && c.expected == st.lines[line].version
    && st.lines[line].status == Unmatched && c.found == Some(st.lines[line].amount)
    && c.key !in st.matches
    && forall k | k in st.matches && st.matches[k].active :: st.matches[k].tx != c.tx
  }

  predicate Frees(st: State, c: Command, line: nat) {
    && c.Unmatch? && c.key in st.matches && st.matches[c.key].active && st.matches[c.key].line == line
    && c.expected == st.matches[c.key].version
  }

  predicate Ignores(st: State, c: Command, line: nat) {
    && line in st.lines && c.Ignore? && c.line == line && c.expected == st.lines[line].version
    && st.lines[line].status == Unmatched
  }

  predicate Reopens(st: State, c: Command, line: nat) {
    && line in st.lines && c.Unignore? && c.line == line && c.expected == st.lines[line].version
    && st.lines[line].status == Ignored && UnignoredBy(line, c.request) !in st.events
  }

  predicate Ingests(st: State, c: Command, line: nat) {
    line !in st.lines && c.Ingest? && c.line == line && c.amount != 0 && c.inBook
  }

  lemma StepChangesLine(st: State, c: Command, line: nat)
    requires KeysBehind(st) && LinesAgree(st) && line in st.lines
    ensures line in Next(st, c).lines
    ensures var before, after := st.lines[line], Next(st, c).lines[line];
            && (before.status != Matched && after.status == Matched <==> Matches(st, c, line))
            && (before.status == Matched && after.status == Unmatched <==> Frees(st, c, line))
            && (before.status != Ignored && after.status == Ignored <==> Ignores(st, c, line))
            && (before.status == Ignored && after.status == Unmatched <==> Reopens(st, c, line))
            && (before.status == after.status ==> after == before)
  {
    hide KeysBehind, LinesAgree;
    LineFacts(st, line);
    ActiveNames(st, c);
    FreedLine(st, c);
  }

  lemma LineFacts(st: State, line: nat)
    requires KeysBehind(st) && line in st.lines
    ensures st.lines[line].version >= 1 && IgnoredAt(line, st.lines[line].version) !in st.events
    ensures forall k | k in st.matches :: st.matches[k].version >= 1
  {
    assert !KeyBehind(st, IgnoredAt(line, st.lines[line].version));
  }

  lemma ActiveNames(st: State, c: Command)
    requires LinesAgree(st)
    ensures c.MatchLine? && c.line in st.lines && st.lines[c.line].status == Unmatched ==> !LineActive(st, c.line)
  {
    if c.MatchLine? && LineActive(st, c.line) {
      var k :| k in st.matches && st.matches[k].active && st.matches[k].line == c.line;
      assert Names(st, k, c.line);
    }
  }

  lemma FreedLine(st: State, c: Command)
    requires LinesAgree(st)
    ensures c.Unmatch? && c.key in st.matches && st.matches[c.key].active ==>
              st.matches[c.key].line in st.lines && st.lines[st.matches[c.key].line].status == Matched
  {
    if c.Unmatch? && c.key in st.matches && st.matches[c.key].active {
      assert Names(st, c.key, st.matches[c.key].line);
    }
  }

  lemma StepIngests(st: State, c: Command, line: nat)
    requires KeysBehind(st) && line !in st.lines
    ensures line in Next(st, c).lines <==> Ingests(st, c, line)
    ensures Ingests(st, c, line) ==> Next(st, c).lines[line] == Line(c.account, c.amount, c.content, Unmatched, 1)
  {
    hide LineActive, TransactionActive;
    assert !KeyBehind(st, Ingested(line));
    assert Ingested(line) !in st.events;
  }

  /** In every reachable state and for every next command: a line appears exactly by a valid ingestion; it turns matched
      exactly by a match at its version with a transaction of its signed amount that no active match has, unmatched
      exactly by undoing its active match or by reopening it under a new request, and ignored exactly by ignoring it
      unmatched. Nothing else touches its row. */
  lemma LineChangesIff(cs: seq<Command>, c: Command, line: nat)
    ensures var st := Run(EMPTY, cs); var next := Run(EMPTY, cs + [c]);
            && (line !in st.lines ==>
                  && (line in next.lines <==> Ingests(st, c, line))
                  && (line in next.lines ==>
                        next.lines[line] == Line(c.account, c.amount, c.content, Unmatched, 1)))
            && (line in st.lines ==>
                  && line in next.lines
                  && var before, after := st.lines[line], next.lines[line];
                     && (before.status != Matched && after.status == Matched <==> Matches(st, c, line))
                     && (before.status == Matched && after.status == Unmatched <==> Frees(st, c, line))
                     && (before.status != Ignored && after.status == Ignored <==> Ignores(st, c, line))
                     && (before.status == Ignored && after.status == Unmatched <==> Reopens(st, c, line))
                     && (before.status == after.status ==> after == before))
  {
    hide Next, KeysBehind, LinesAgree, MatchesAgree, Matches, Frees, Ignores, Reopens, Ingests;
    RunKeepsKeysBehind(cs);
    EveryRunIsValid(cs);
    assert (cs + [c])[..|cs|] == cs;
    var st := Run(EMPTY, cs);
    if line in st.lines { StepChangesLine(st, c, line); } else { StepIngests(st, c, line); }
  }

  // ---- what an active match was made of ----

  /** The command made the match, when the line had the amount and the transaction was found with the same amount. */
  predicate Made(st: State, c: Command, key: nat, m: Match, amount: int) {
    && c.MatchLine? && c.key == key && c.line == m.line && c.tx == m.tx && c.manual == m.manual
    && m.line in st.lines && st.lines[m.line].amount == amount && c.found == Some(amount)
  }

  lemma NewMatchIsMade(st: State, c: Command, key: nat)
    requires key in Next(st, c).matches && Next(st, c).matches[key].active
    requires key !in st.matches || !st.matches[key].active
    ensures var m := Next(st, c).matches[key];
            m.line in st.lines && Made(st, c, key, m, st.lines[m.line].amount)
  {
    hide LineActive, TransactionActive;
  }

  lemma ActiveMatchStays(st: State, c: Command, key: nat)
    requires key in st.matches && st.matches[key].active
    requires key in Next(st, c).matches && Next(st, c).matches[key].active
    ensures Next(st, c).matches[key] == st.matches[key]
  {
    hide LineActive, TransactionActive;
  }

  /** Every active match of a reachable state was made by a command of the run that found its transaction with exactly
      the amount, sign included, that its line still has. */
  lemma {:induction false} ActiveMatchWasFound(cs: seq<Command>, key: nat)
    requires key in Run(EMPTY, cs).matches && Run(EMPTY, cs).matches[key].active
    ensures var st := Run(EMPTY, cs); var m := st.matches[key];
            && m.line in st.lines
            && exists i :: 0 <= i < |cs| && Made(Run(EMPTY, cs[..i]), cs[i], key, m, st.lines[m.line].amount)
  {
    hide Step, Made, Next;
    if cs != [] {
      var front, c := cs[..|cs| - 1], cs[|cs| - 1];
      var before, m := Run(EMPTY, front), Run(EMPTY, cs).matches[key];
      if key in before.matches && before.matches[key].active {
        ActiveMatchStays(before, c, key);
        ActiveMatchWasFound(front, key);
        AmountStays(before, c, m.line);
        var i :| 0 <= i < |front| && Made(Run(EMPTY, front[..i]), front[i], key, m, before.lines[m.line].amount);
        assert cs[..i] == front[..i] && cs[i] == front[i];
      } else {
        NewMatchIsMade(before, c, key);
        AmountStays(before, c, m.line);
        assert Made(Run(EMPTY, cs[..|cs| - 1]), cs[|cs| - 1], key, m, before.lines[m.line].amount);
      }
    }
  }

  lemma AmountStays(st: State, c: Command, line: nat)
    requires line in st.lines
    ensures line in Next(st, c).lines && Next(st, c).lines[line].amount == st.lines[line].amount
  {
    hide Step;
    StepFrame(st, c);
  }
}
