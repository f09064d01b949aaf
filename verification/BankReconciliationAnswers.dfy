/** Which bank reconciliation commands are answered, in every reachable state: those that take effect now, and
    repetitions of the command that made what they ask for (src/bank-reconciliation.ts). */
module BankReconciliationAnswers {
  import opened Wrappers
  import opened BankReconciliation
  import opened BankReconciliationLaws
  import opened BankReconciliationChanges

  /** The command changes the line's row, or creates it. */
  predicate Changes(st: State, c: Command, line: nat) {
    Ingests(st, c, line) || Matches(st, c, line) || Frees(st, c, line) || Ignores(st, c, line) || Reopens(st, c, line)
  }

  predicate Undoes(st: State, c: Command, key: nat) {
    c.Unmatch? && c.key == key && key in st.matches && st.matches[key].active && c.expected == st.matches[key].version
  }

  predicate Makes(st: State, c: Command, key: nat) {
    c.MatchLine? && c.key == key && Matches(st, c, c.line)
  }

  /** The command of a run that changed the line last, created it, or made or undid the match of a key. */
  ghost function Latest(cs: seq<Command>, line: nat): Option<Command> {
    if cs == [] then None
    else if Changes(Run(EMPTY, cs[..|cs| - 1]), cs[|cs| - 1], line) then Some(cs[|cs| - 1])
    else Latest(cs[..|cs| - 1], line)
  }

  ghost function Ingestion(cs: seq<Command>, line: nat): Option<Command> {
    if cs == [] then None
    else if Ingests(Run(EMPTY, cs[..|cs| - 1]), cs[|cs| - 1], line) then Some(cs[|cs| - 1])
    else Ingestion(cs[..|cs| - 1], line)
  }

  ghost function Maker(cs: seq<Command>, key: nat): Option<Command> {
    if cs == [] then None
    else if Makes(Run(EMPTY, cs[..|cs| - 1]), cs[|cs| - 1], key) then Some(cs[|cs| - 1])
    else Maker(cs[..|cs| - 1], key)
  }

  ghost function Undoer(cs: seq<Command>, key: nat): Option<Command> {
    if cs == [] then None
    else if Undoes(Run(EMPTY, cs[..|cs| - 1]), cs[|cs| - 1], key) then Some(cs[|cs| - 1])
    else Undoer(cs[..|cs| - 1], key)
  }

  ghost predicate Sane(st: State) {
    KeysBehind(st) && LinesAgree(st)
  }

  lemma RunIsSane(cs: seq<Command>)
    ensures Sane(Run(EMPTY, cs))
  {
    hide KeysBehind, LinesAgree, MatchesAgree;
    RunKeepsKeysBehind(cs);
    EveryRunIsValid(cs);
  }

  /** Evidence once kept stays as it is. */
  lemma EvidenceStays(st: State, c: Command)
    requires Sane(st)
    ensures forall key | key in st.events :: key in Next(st, c).events && Next(st, c).events[key] == st.events[key]
  {
    hide LineActive, TransactionActive, LinesAgree;
    if c.MatchLine? { assert MatchedBy(c.key) in st.events ==> KeyBehind(st, MatchedBy(c.key)); }
    if c.Unmatch? {
      assert UnmatchedAt(c.key, c.expected) in st.events ==> KeyBehind(st, UnmatchedAt(c.key, c.expected));
    }
  }

  // ---- lines ----

  /** What the latest effective command has left of a line. */
  predicate LeftBy(st: State, c: Command, line: nat) {
    && line in st.lines
    && var l := st.lines[line];
    match c
    case Ingest(_, _, _, _, _, _) => l.status == Unmatched && l.version == 1
    case MatchLine(_, _, _, _, _, _, _) => l.status == Matched
    case Unmatch(_, _, _) => l.status == Unmatched
    case Ignore(of, expected, _) =>
      && of == line && l.status == Ignored && l.version == expected + 1 > 1
      && Retained(st, IgnoredAt(line, expected), c)
    case Unignore(of, expected, request, _) =>
      && of == line && l.status == Unmatched && l.version == expected + 1 > 1
      && Retained(st, UnignoredBy(line, request), c)
  }

  lemma ChangeLeaves(st: State, c: Command, line: nat)
    requires Sane(st) && Changes(st, c, line)
    ensures LeftBy(Next(st, c), c, line)
  {
    hide KeysBehind, LinesAgree;
    if line in st.lines {
      StepChangesLine(st, c, line);
      LineFacts(st, line);
    } else {
      FreesLines(st, c, line);
      StepIngests(st, c, line);
    }
  }

  lemma FreesLines(st: State, c: Command, line: nat)
    requires Sane(st)
    ensures Frees(st, c, line) ==> line in st.lines
  {
    if Frees(st, c, line) { assert Names(st, c.key, line); }
  }

  lemma OtherLeaves(st: State, c: Command, line: nat, last: Command)
    requires Sane(st) && LeftBy(st, last, line) && !Changes(st, c, line)
    ensures LeftBy(Next(st, c), last, line)
  {
    hide Next, KeysBehind, LinesAgree;
    EvidenceStays(st, c);
    StepChangesLine(st, c, line);
    assert Next(st, c).lines[line] == st.lines[line];
  }

  lemma NotIngested(st: State, c: Command, line: nat)
    requires Sane(st) && line !in st.lines && !Changes(st, c, line)
    ensures line !in Next(st, c).lines
  {
    hide KeysBehind, LinesAgree;
    StepIngests(st, c, line);
  }

  lemma LeftIsLine(st: State, c: Command, line: nat)
    requires LeftBy(st, c, line)
    ensures line in st.lines
  {
  }

  lemma {:induction false} LatestLeft(cs: seq<Command>, line: nat)
    ensures line in Run(EMPTY, cs).lines <==> Latest(cs, line).Some?
    ensures line in Run(EMPTY, cs).lines ==> LeftBy(Run(EMPTY, cs), Latest(cs, line).value, line)
  {
    hide Next, LeftBy, Changes, Sane;
    if cs != [] {
      var front, c := cs[..|cs| - 1], cs[|cs| - 1];
      var st := Run(EMPTY, front);
      LatestLeft(front, line);
      RunIsSane(front);
      if Changes(st, c, line) {
        ChangeLeaves(st, c, line);
        LeftIsLine(Next(st, c), c, line);
      } else if line in st.lines {
        OtherLeaves(st, c, line, Latest(front, line).value);
        LeftIsLine(Next(st, c), Latest(front, line).value, line);
      } else {
        NotIngested(st, c, line);
      }
    }
  }

  /** A reopening's expected version lies behind the line's version, directly behind only for the latest change. */
  ghost predicate ReopeningsBehind(st: State, line: nat, last: Option<Command>) {
    forall r | UnignoredBy(line, r) in st.events ::
      var e := st.events[UnignoredBy(line, r)];
      && e.Unignore? && e.request == r && line in st.lines && e.expected + 1 <= st.lines[line].version
      && (e.expected + 1 == st.lines[line].version ==> last.Some? && Content(last.value) == e)
  }

  lemma StepKeepsReopenings(st: State, c: Command, line: nat, last: Option<Command>)
    requires Sane(st) && ReopeningsBehind(st, line, last)
    ensures ReopeningsBehind(Next(st, c), line, if Changes(st, c, line) then Some(c) else last)
  {
    hide KeysBehind, LinesAgree, LineActive, TransactionActive;
    if line in st.lines {
      StepChangesLine(st, c, line);
      StepCountsChange(st, c, line);
    } else {
      StepIngests(st, c, line);
    }
  }

  lemma {:induction false} RunKeepsReopenings(cs: seq<Command>, line: nat)
    ensures ReopeningsBehind(Run(EMPTY, cs), line, Latest(cs, line))
  {
    hide Next, Sane, Changes;
    if cs != [] {
      RunKeepsReopenings(cs[..|cs| - 1], line);
      RunIsSane(cs[..|cs| - 1]);
      StepKeepsReopenings(Run(EMPTY, cs[..|cs| - 1]), cs[|cs| - 1], line, Latest(cs[..|cs| - 1], line));
    }
  }

  lemma IgnoreAnswered(st: State, c: Command, last: Command)
    requires Sane(st) && c.Ignore? && LeftBy(st, last, c.line)
    ensures Step(st, c).1.Ok? <==> Ignores(st, c, c.line) || Content(last) == Content(c)
  {
    hide KeysBehind, LinesAgree;
    LineFacts(st, c.line);
  }

  lemma UnignoreAnswered(st: State, c: Command, last: Command)
    requires Sane(st) && c.Unignore? && LeftBy(st, last, c.line) && ReopeningsBehind(st, c.line, Some(last))
    ensures Step(st, c).1.Ok? <==> Reopens(st, c, c.line) || Content(last) == Content(c)
  {
    hide KeysBehind, LinesAgree;
    LineFacts(st, c.line);
  }

  lemma UnknownLineRefused(st: State, c: Command)
    requires (c.Ignore? || c.Unignore?) && c.line !in st.lines
    ensures Step(st, c).1.Err? && !Ignores(st, c, c.line) && !Reopens(st, c, c.line)
  {
  }

  /** Ignoring a line or reopening it is accepted exactly when it takes effect now or has the content of the command
      that changed the line last. */
  lemma LineCommandsAnsweredIff(cs: seq<Command>, c: Command)
    requires c.Ignore? || c.Unignore?
    ensures var st, last := Run(EMPTY, cs), Latest(cs, c.line);
            Step(st, c).1.Ok? <==>
              || (if c.Ignore? then Ignores(st, c, c.line) else Reopens(st, c, c.line))
              || (last.Some? && Content(last.value) == Content(c))
  {
    hide Step, Sane, LeftBy, Content, Ignores, Reopens, Run, Latest, ReopeningsBehind;
    var st := Run(EMPTY, cs);
    RunIsSane(cs);
    LatestLeft(cs, c.line);
    RunKeepsReopenings(cs, c.line);
    if c.line in st.lines {
      var last := Latest(cs, c.line).value;
      if c.Ignore? { IgnoreAnswered(st, c, last); } else { UnignoreAnswered(st, c, last); }
    } else {
      UnknownLineRefused(st, c);
    }
  }

  // ---- ingestion ----

  lemma IngestionLeaves(st: State, c: Command, line: nat)
    requires Sane(st) && Ingests(st, c, line)
    ensures c.Ingest? && Retained(Next(st, c), Ingested(line), c) && line in Next(st, c).lines
    ensures var l := Next(st, c).lines[line];
            l.account == c.account && l.amount == c.amount != 0 && l.content == c.content
  {
    hide KeysBehind, LinesAgree;
    StepIngests(st, c, line);
  }

  lemma {:induction false} IngestionKept(cs: seq<Command>, line: nat)
    ensures line in Run(EMPTY, cs).lines <==> Ingestion(cs, line).Some?
    ensures line in Run(EMPTY, cs).lines ==>
              var st, i := Run(EMPTY, cs), Ingestion(cs, line).value;
              && i.Ingest? && i.line == line && Retained(st, Ingested(line), i)
              && st.lines[line].account == i.account && st.lines[line].amount == i.amount != 0
              && st.lines[line].content == i.content
  {
    hide Next, Sane;
    if cs != [] {
      var front, c := cs[..|cs| - 1], cs[|cs| - 1];
      var st := Run(EMPTY, front);
      IngestionKept(front, line);
      RunIsSane(front);
      EvidenceStays(st, c);
      if line in st.lines {
        StepCountsChange(st, c, line);
      } else if Ingests(st, c, line) {
        IngestionLeaves(st, c, line);
      } else {
        NoOtherIngestion(st, c, line);
      }
    }
  }

  lemma NoOtherIngestion(st: State, c: Command, line: nat)
    requires Sane(st) && line !in st.lines && !Ingests(st, c, line)
    ensures line !in Next(st, c).lines
  {
    hide KeysBehind, LinesAgree;
    StepIngests(st, c, line);
  }

  lemma RepeatedIngestion(st: State, c: Command, i: Command)
    requires c.Ingest? && i.Ingest? && i.line == c.line && c.line in st.lines && Retained(st, Ingested(c.line), i)
    requires var l := st.lines[c.line]; l.account == i.account && l.amount == i.amount != 0 && l.content == i.content
    ensures Step(st, c).1.Ok? <==> c.inBook && Content(c) == Content(i)
  {
  }

  lemma NewIngestion(st: State, c: Command)
    requires Sane(st) && c.Ingest? && c.line !in st.lines
    ensures Step(st, c).1.Ok? <==> Ingests(st, c, c.line)
  {
    hide LinesAgree;
    assert !KeyBehind(st, Ingested(c.line));
  }

  /** An ingestion is accepted exactly when it creates its line now, or repeats in the book the one that created it. */
  lemma IngestionsAnsweredIff(cs: seq<Command>, c: Command)
    requires c.Ingest?
    ensures var st, i := Run(EMPTY, cs), Ingestion(cs, c.line);
            Step(st, c).1.Ok? <==> Ingests(st, c, c.line) || (c.inBook && i.Some? && Content(i.value) == Content(c))
  {
    hide Step, Sane, Content, Run, Ingestion;
    var st := Run(EMPTY, cs);
    RunIsSane(cs);
    IngestionKept(cs, c.line);
    if c.line in st.lines {
      RepeatedIngestion(st, c, Ingestion(cs, c.line).value);
    } else {
      NewIngestion(st, c);
    }
  }

  // ---- matches ----

  /** An active match keeps its maker's evidence, and one that was undone its undoer's. */
  predicate MatchLeft(st: State, key: nat, maker: Option<Command>, undoer: Option<Command>) {
    key in st.matches ==>
      var m := st.matches[key];
      && maker.Some? && maker.value.MatchLine? && maker.value.key == key && maker.value.expected >= 1
      && m.line == maker.value.line && m.tx == maker.value.tx && m.manual == maker.value.manual
      && (m.active ==> m.event == MatchedBy(key) && m.version == 1 && Retained(st, MatchedBy(key), maker.value))
      && (!m.active ==>
            && undoer.Some? && undoer.value.Unmatch? && undoer.value.key == key && undoer.value.expected == 1
            && m.version == 2 && m.event == UnmatchedAt(key, 1) && Retained(st, UnmatchedAt(key, 1), undoer.value))
  }

  lemma StepKeepsMatch(st: State, c: Command, key: nat, maker: Option<Command>, undoer: Option<Command>)
    requires Sane(st) && MatchLeft(st, key, maker, undoer) && (maker.Some? ==> key in st.matches)
    ensures var made := if Makes(st, c, key) then Some(c) else maker;
            MatchLeft(Next(st, c), key, made, if Undoes(st, c, key) then Some(c) else undoer)
            && (made.Some? ==> key in Next(st, c).matches)
  {
    hide KeysBehind, LinesAgree;
    EvidenceStays(st, c);
    if c.MatchLine? && c.line in st.lines {
      LineFacts(st, c.line);
      ActiveNames(st, c);
    }
  }

  lemma {:induction false} MatchesLeft(cs: seq<Command>, key: nat)
    ensures MatchLeft(Run(EMPTY, cs), key, Maker(cs, key), Undoer(cs, key))
    ensures key in Run(EMPTY, cs).matches <==> Maker(cs, key).Some?
  {
    hide Next, Sane, Makes, Undoes;
    if cs != [] {
      var front := cs[..|cs| - 1];
      MatchesLeft(front, key);
      RunIsSane(front);
      StepKeepsMatch(Run(EMPTY, front), cs[|cs| - 1], key, Maker(front, key), Undoer(front, key));
    }
  }

  lemma MatchAnswered(st: State, c: Command, maker: Option<Command>, undoer: Option<Command>)
    requires Sane(st) && c.MatchLine? && MatchLeft(st, c.key, maker, undoer)
    ensures Step(st, c).1.Ok? <==>
              Matches(st, c, c.line)
              || (c.key in st.matches && st.matches[c.key].active && maker.Some? && Content(maker.value) == Content(c))
  {
    hide KeysBehind, LinesAgree;
    if c.line in st.lines {
      LineFacts(st, c.line);
      ActiveNames(st, c);
    }
  }

  lemma UnmatchAnswered(st: State, c: Command, maker: Option<Command>, undoer: Option<Command>)
    requires Sane(st) && c.Unmatch? && MatchLeft(st, c.key, maker, undoer)
    ensures Step(st, c).1.Ok? <==>
              Undoes(st, c, c.key)
              || (c.key in st.matches && !st.matches[c.key].active && undoer.Some?
                  && Content(undoer.value) == Content(c))
  {
    hide KeysBehind, LinesAgree;
  }

  /** A match is accepted exactly when it takes effect now or repeats the one that made its still active match; undoing
      a match exactly when it takes effect now or repeats the one that undid it. */
  lemma MatchCommandsAnsweredIff(cs: seq<Command>, c: Command)
    requires c.MatchLine? || c.Unmatch?
    ensures var st := Run(EMPTY, cs);
            Step(st, c).1.Ok? <==>
              if c.MatchLine? then
                || Matches(st, c, c.line)
                || (c.key in st.matches && st.matches[c.key].active && Maker(cs, c.key).Some?
                    && Content(Maker(cs, c.key).value) == Content(c))
              else
                || Undoes(st, c, c.key)
                || (c.key in st.matches && !st.matches[c.key].active && Undoer(cs, c.key).Some?
                    && Content(Undoer(cs, c.key).value) == Content(c))
  {
    hide Step, Sane, Content, Run, Maker, Undoer, MatchLeft, Matches, Undoes;
    RunIsSane(cs);
    MatchesLeft(cs, c.key);
    if c.MatchLine? {
      MatchAnswered(Run(EMPTY, cs), c, Maker(cs, c.key), Undoer(cs, c.key));
    } else {
      UnmatchAnswered(Run(EMPTY, cs), c, Maker(cs, c.key), Undoer(cs, c.key));
    }
  }
}
