/** Laws of every run of bank reconciliation commands. */
module BankReconciliationLaws {
  import opened Wrappers
  import opened BankReconciliation

  function Next(st: State, c: Command): State {
    Step(st, c).0
  }

  ghost function Run(st: State, cs: seq<Command>): State {
    if cs == [] then st else Next(Run(st, cs[..|cs| - 1]), cs[|cs| - 1])
  }

  // ---- lines and their active matches ----

  /** The match is active and names the line. */
  ghost predicate Names(st: State, k: nat, line: nat) {
    k in st.matches && st.matches[k].active && st.matches[k].line == line
  }

  /** A line is matched exactly when one and only one active match names it. */
  ghost predicate LinesAgree(st: State) {
    && (forall l | l in st.lines :: st.lines[l].status == Matched <==> exists k :: Names(st, k, l))
    && (forall l, j, k | Names(st, j, l) && Names(st, k, l) :: j == k)
    && (forall l, k | Names(st, k, l) :: l in st.lines)
  }

  /** An active match carries its line's absolute amount, which is not zero. */
  ghost predicate AmountsAgree(st: State) {
    && (forall l | l in st.lines :: st.lines[l].amount != 0)
    && (forall k | k in st.matches && st.matches[k].active ::
          st.matches[k].line in st.lines && st.matches[k].amount == Abs(st.lines[st.matches[k].line].amount) > 0)
  }

  /** No transaction is matched twice. */
  ghost predicate TransactionsDiffer(st: State) {
    forall j, k | j in st.matches && k in st.matches && st.matches[j].active && st.matches[k].active
                  && st.matches[j].tx == st.matches[k].tx :: j == k
  }

  ghost predicate MatchesAgree(st: State) {
    AmountsAgree(st) && TransactionsDiffer(st)
  }

  ghost predicate Valid(st: State) {
    LinesAgree(st) && MatchesAgree(st)
  }

  lemma MatchKeepsLines(st: State, c: Command)
    requires LinesAgree(st) && c.MatchLine? && Next(st, c) != st
    ensures LinesAgree(Next(st, c))
  {
    var next := Next(st, c);
    assert Names(next, c.key, c.line);
    forall k, l ensures Names(next, k, l) <==> Names(st, k, l) || (k == c.key && l == c.line) {}
  }

  lemma UnmatchKeepsLines(st: State, c: Command)
    requires LinesAgree(st) && c.Unmatch? && Next(st, c) != st
    ensures LinesAgree(Next(st, c))
  {
    var next := Next(st, c);
    var line := st.matches[c.key].line;
    assert Names(st, c.key, line);
    forall k, l ensures Names(next, k, l) <==> Names(st, k, l) && k != c.key {}
  }

  lemma OtherKeepsLines(st: State, c: Command)
    requires LinesAgree(st) && !c.MatchLine? && !c.Unmatch?
    ensures LinesAgree(Next(st, c))
  {
    var next := Next(st, c);
    assert next.matches == st.matches;
    forall k, l ensures Names(next, k, l) <==> Names(st, k, l) {}
  }

  /** No command changes a line's amount, and only a match adds an active match. */
  lemma StepFrame(st: State, c: Command)
    ensures var next := Next(st, c);
            && (forall l | l in st.lines :: l in next.lines && next.lines[l].amount == st.lines[l].amount)
            && (forall l | l in next.lines && l !in st.lines :: next.lines[l].amount != 0)
            && (forall k | k in next.matches && next.matches[k].active && !(c.MatchLine? && k == c.key && next != st) ::
                  k in st.matches && st.matches[k] == next.matches[k])
  {
  }

  /** What a match that takes effect stores. */
  lemma MatchStores(st: State, c: Command)
    requires c.MatchLine? && Next(st, c) != st
    ensures var next := Next(st, c);
            && c.line in st.lines && c.key in next.matches && !TransactionActive(st, c.tx)
            && next.matches[c.key].line == c.line && next.matches[c.key].tx == c.tx
            && next.matches[c.key].amount == Abs(st.lines[c.line].amount)
  {
  }

  lemma StepKeepsAmounts(st: State, c: Command)
    requires AmountsAgree(st)
    ensures AmountsAgree(Next(st, c))
  {
    hide Step;
    StepFrame(st, c);
    if c.MatchLine? && Next(st, c) != st { MatchStores(st, c); }
  }

  lemma StepKeepsTransactions(st: State, c: Command)
    requires TransactionsDiffer(st)
    ensures TransactionsDiffer(Next(st, c))
  {
    hide Step;
    StepFrame(st, c);
    if c.MatchLine? && Next(st, c) != st { MatchStores(st, c); }
  }

  lemma StepKeepsValid(st: State, c: Command)
    requires Valid(st)
    ensures Valid(Next(st, c))
  {
    hide LinesAgree, AmountsAgree, TransactionsDiffer, Step;
    StepKeepsAmounts(st, c);
    StepKeepsTransactions(st, c);
    if Next(st, c) != st {
      if c.MatchLine? { MatchKeepsLines(st, c); }
      else if c.Unmatch? { UnmatchKeepsLines(st, c); }
      else { OtherKeepsLines(st, c); }
    }
  }

  /** In every reachable state a line is matched exactly when one and only one active match names it, that match has
      the line's absolute amount, and no transaction is matched twice. */
  lemma {:induction false} EveryRunIsValid(cs: seq<Command>)
    ensures Valid(Run(EMPTY, cs))
  {
    hide Step;
    if cs == [] {
      assert Valid(EMPTY);
    } else {
      EveryRunIsValid(cs[..|cs| - 1]);
      StepKeepsValid(Run(EMPTY, cs[..|cs| - 1]), cs[|cs| - 1]);
    }
  }

  /** Undoing an active match always changes exactly its line: the update that nothing checks finds it matched. */
  lemma UnmatchHitsItsLine(cs: seq<Command>, c: Command)
    requires c.Unmatch? && Next(Run(EMPTY, cs), c) != Run(EMPTY, cs)
    ensures var st := Run(EMPTY, cs);
            var next := Next(st, c);
            && c.key in st.matches
            && var line := st.matches[c.key].line;
            && line in st.lines && st.lines[line].status == Matched
            && next.lines == st.lines[line := st.lines[line].(status := Unmatched,
                                                              version := st.lines[line].version + 1)]
  {
    EveryRunIsValid(cs);
    UnmatchHits(Run(EMPTY, cs), c);
  }

  lemma UnmatchHits(st: State, c: Command)
    requires LinesAgree(st) && c.Unmatch? && Next(st, c) != st
    ensures c.key in st.matches
    ensures var line := st.matches[c.key].line;
            && line in st.lines && st.lines[line].status == Matched
            && Next(st, c).lines
              == st.lines[line := st.lines[line].(status := Unmatched, version := st.lines[line].version + 1)]
  {
    assert Names(st, c.key, st.matches[c.key].line);
  }

  /** The index on active lines never refuses a match: the line's own status already does. */
  lemma ActiveLineIndexNeverFires(cs: seq<Command>, c: Command)
    ensures Step(Run(EMPTY, cs), c).1 != Err(LineTaken)
  {
    EveryRunIsValid(cs);
    ActiveLineIsMatched(Run(EMPTY, cs), c);
  }

  lemma ActiveLineIsMatched(st: State, c: Command)
    requires LinesAgree(st)
    ensures Step(st, c).1 != Err(LineTaken)
  {
    if c.MatchLine? && LineActive(st, c.line) {
      var k :| k in st.matches && st.matches[k].active && st.matches[k].line == c.line;
      assert Names(st, k, c.line);
    }
  }

  // ---- versions ----

  /** A step raises a line's version by one exactly when it changes its status. */
  lemma StepCountsChange(st: State, c: Command, line: nat)
    requires line in st.lines
    ensures line in Next(st, c).lines
    ensures var before, after := st.lines[line], Next(st, c).lines[line];
            && after.version == before.version + (if after.status != before.status then 1 else 0)
            && after.amount == before.amount && after.account == before.account && after.content == before.content
  {
  }

  lemma NewLine(st: State, c: Command, line: nat)
    requires line !in st.lines && line in Next(st, c).lines
    ensures Next(st, c).lines[line].version == 1 && Next(st, c).lines[line].status == Unmatched
  {
  }

  /** How often a run changes a line's status. */
  ghost function Changes(cs: seq<Command>, line: nat): nat {
    if cs == [] then 0
    else
      var before, after := Run(EMPTY, cs[..|cs| - 1]), Run(EMPTY, cs);
      Changes(cs[..|cs| - 1], line)
      + if line in before.lines && line in after.lines && before.lines[line].status != after.lines[line].status
        then 1 else 0
  }

  /** A line's version is one plus the number of its status changes. */
  lemma {:induction false} VersionCountsChanges(cs: seq<Command>, line: nat)
    ensures if line in Run(EMPTY, cs).lines
            then Run(EMPTY, cs).lines[line].version == 1 + Changes(cs, line) else Changes(cs, line) == 0
  {
    hide Step;
    if cs != [] {
      var before := Run(EMPTY, cs[..|cs| - 1]);
      VersionCountsChanges(cs[..|cs| - 1], line);
      if line in before.lines {
        StepCountsChange(before, cs[|cs| - 1], line);
      } else if line in Run(EMPTY, cs).lines {
        NewLine(before, cs[|cs| - 1], line);
      }
    }
  }

  // ---- replays ----

  /** A mark that an accepted command leaves for good. */
  predicate Spent(st: State, c: Command) {
    match c
    case Ingest(line, _, _, _, _, _) => line in st.lines && Ingested(line) in st.events
    case MatchLine(key, _, _, _, _, _, _) => key in st.matches
    case Unmatch(key, expected, _) =>
      key in st.matches && (!st.matches[key].active || expected < st.matches[key].version)
    case Ignore(line, expected, _) => line in st.lines && expected < st.lines[line].version
    case Unignore(line, expected, _, _) => line in st.lines && expected < st.lines[line].version
  }

  lemma AcceptedIsSpent(st: State, c: Command)
    requires Step(st, c).1.Ok?
    ensures Spent(Next(st, c), c)
  {
  }

  lemma SpentStays(st: State, c: Command, d: Command)
    requires Spent(st, c)
    ensures Spent(Next(st, d), c)
  {
  }

  lemma SpentChangesNothing(st: State, c: Command)
    requires Spent(st, c)
    ensures Next(st, c) == st
  {
  }

  lemma {:induction false} SpentThroughRun(st: State, c: Command, cs: seq<Command>)
    requires Spent(st, c)
    ensures Spent(Run(st, cs), c)
  {
    hide Spent, Step;
    if cs != [] {
      SpentThroughRun(st, c, cs[..|cs| - 1]);
      SpentStays(Run(st, cs[..|cs| - 1]), c, cs[|cs| - 1]);
    }
  }

  /** No command takes effect twice, whatever was done in between. */
  lemma NoCommandAppliesTwice(st: State, c: Command, cs: seq<Command>)
    requires Step(st, c).1.Ok?
    ensures Next(Run(Next(st, c), cs), c) == Run(Next(st, c), cs)
  {
    hide Spent, Step;
    AcceptedIsSpent(st, c);
    SpentThroughRun(Next(st, c), c, cs);
    SpentChangesNothing(Run(Next(st, c), cs), c);
  }

  /** A command sent again at once is answered as it was the first time, and only a match says that it was there. */
  lemma ImmediateReplayIsAccepted(cs: seq<Command>, c: Command)
    requires Step(Run(EMPTY, cs), c).1.Ok?
    ensures var next := Next(Run(EMPTY, cs), c);
            Step(next, c) == (next, if c.MatchLine? then Ok(AlreadyMatched) else Step(Run(EMPTY, cs), c).1)
  {
    hide LineActive, TransactionActive;
    var st := Run(EMPTY, cs);
    ReplayOf(st, c);
  }

  lemma ReplayOf(st: State, c: Command)
    requires Step(st, c).1.Ok?
    ensures Step(Next(st, c), c) == (Next(st, c), if c.MatchLine? then Ok(AlreadyMatched) else Step(st, c).1)
  {
    hide LineActive, TransactionActive;
    match c
    case Ingest(_, _, _, _, _, _) => assert Step(Next(st, c), c).0 == Next(st, c);
    case MatchLine(_, _, _, _, _, _, _) => assert Step(Next(st, c), c).0 == Next(st, c);
    case Unmatch(_, _, _) => assert Step(Next(st, c), c).0 == Next(st, c);
    case Ignore(_, _, _) => assert Step(Next(st, c), c).0 == Next(st, c);
    case Unignore(_, _, _, _) => assert Step(Next(st, c), c).0 == Next(st, c);
  }
}
