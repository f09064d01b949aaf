/** Matching of imported bank lines to posted transactions (src/bank-reconciliation.ts). Every command holds its
    source's exclusive lock and is rolled back when refused, so it is one atomic step. Amounts are cents. */
module BankReconciliation {
  import opened Wrappers

  datatype LineStatus = Unmatched | Matched | Ignored

  /** `content` stands for a line's date, currency, description and references. */
  datatype Line = Line(account: nat, amount: int, content: nat, status: LineStatus, version: nat)

  /** A match that was undone stays undone. */
  datatype Match = Match(line: nat, tx: nat, amount: nat, manual: bool, active: bool, version: nat, event: EventKey)

  datatype EventKey =
    | Ingested(line: nat)
    | MatchedBy(key: nat)
    | UnmatchedAt(key: nat, version: nat)
    | IgnoredAt(line: nat, version: nat)
    | UnignoredBy(line: nat, request: nat)

  /** `operation` stands for a command's actor, approver and reason. `inBook`: the account is active and in the book.
      `found`: the posted transaction's amount on the line's bank account, if there is one. */
  datatype Command =
    | Ingest(line: nat, account: nat, amount: int, content: nat, operation: nat, inBook: bool)
    | MatchLine(key: nat, line: nat, tx: nat, manual: bool, expected: nat, operation: nat, found: Option<int>)
    | Unmatch(key: nat, expected: nat, operation: nat)
    | Ignore(line: nat, expected: nat, operation: nat)
    | Unignore(line: nat, expected: nat, request: nat, operation: nat)

  /** Lines by external id, matches by idempotency key, and the evidence of every accepted command. */
  datatype State = State(lines: map<nat, Line>, matches: map<nat, Match>, events: map<EventKey, Command>)

  const EMPTY := State(map[], map[], map[])

  datatype Refusal =
    | InvalidInput
    | MissingAccount
    | MissingDocument
    | IdempotencyConflict
    | TerminalState
    | ReconciliationConflict
    | StaleVersion
    | LineTaken
    | TransactionTaken

  datatype Outcome = NowIngested | NowMatched | AlreadyMatched | NowUnmatched | NowIgnored | NowUnignored

  function Abs(x: int): nat {
    if x < 0 then -x else x
  }

  /** What a command's retained evidence covers. */
  function Content(c: Command): Command {
    match c
    case Ingest(line, account, amount, content, operation, _) => Ingest(line, account, amount, content, operation, true)
    case MatchLine(key, line, tx, manual, expected, operation, _) =>
      MatchLine(key, line, tx, manual, expected, operation, None)
    case _ => c
  }

  predicate Retained(st: State, key: EventKey, c: Command) {
    key in st.events && st.events[key] == Content(c)
  }

  function Record(st: State, key: EventKey, c: Command): State {
    st.(events := st.events[key := Content(c)])
  }

  function WithStatus(l: Line, status: LineStatus): Line {
    l.(status := status, version := l.version + 1)
  }

  function IngestLine(st: State, c: Command): (State, Result<Outcome, Refusal>)
    requires c.Ingest?
  {
    var key := Ingested(c.line);
    if c.amount == 0 then (st, Err(InvalidInput))
    else if !c.inBook then (st, Err(MissingAccount))
    else if c.line in st.lines
      && (st.lines[c.line].account != c.account || st.lines[c.line].amount != c.amount
          || st.lines[c.line].content != c.content)
    then (st, Err(IdempotencyConflict))
    else if key in st.events && !Retained(st, key, c) then (st, Err(IdempotencyConflict))
    else if c.line in st.lines then (Record(st, key, c), Ok(NowIngested))
    else (Record(st, key, c).(lines := st.lines[c.line := Line(c.account, c.amount, c.content, Unmatched, 1)]),
          Ok(NowIngested))
  }

  /** The unique indexes on active matches. */
  predicate LineActive(st: State, line: nat) {
    exists k | k in st.matches :: st.matches[k].active && st.matches[k].line == line
  }

  predicate TransactionActive(st: State, tx: nat) {
    exists k | k in st.matches :: st.matches[k].active && st.matches[k].tx == tx
  }

  function MatchOne(st: State, c: Command): (State, Result<Outcome, Refusal>)
    requires c.MatchLine?
  {
    var key := MatchedBy(c.key);
    if c.expected < 1 then (st, Err(InvalidInput))
    else if c.key in st.matches then
      var m := st.matches[c.key];
      if m.line != c.line || m.tx != c.tx || m.manual != c.manual then (st, Err(IdempotencyConflict))
      else if !m.active then (st, Err(TerminalState))
      else if m.event != key || !Retained(st, key, c) then (st, Err(IdempotencyConflict))
      else (st, Ok(AlreadyMatched))
    else if c.line !in st.lines then (st, Err(MissingDocument))
    else
      var l := st.lines[c.line];
      if l.status != Unmatched then (st, Err(ReconciliationConflict))
      else if l.version != c.expected then (st, Err(StaleVersion))
      else if c.found.None? then (st, Err(MissingDocument))
      else if c.found.value != l.amount then (st, Err(ReconciliationConflict))
      else if LineActive(st, c.line) then (st, Err(LineTaken))
      else if TransactionActive(st, c.tx) then (st, Err(TransactionTaken))
      else
        (Record(st, key, c).(
           matches := st.matches[c.key := Match(c.line, c.tx, Abs(l.amount), c.manual, true, 1, key)],
           lines := st.lines[c.line := WithStatus(l, Matched)]), Ok(NowMatched))
  }

  /** Undoing a match updates its line without checking that the update found it. */
  function UnmatchOne(st: State, c: Command): (State, Result<Outcome, Refusal>)
    requires c.Unmatch?
  {
    var key := UnmatchedAt(c.key, c.expected);
    if c.expected < 1 then (st, Err(InvalidInput))
    else if c.key !in st.matches then (st, Err(MissingDocument))
    else
      var m := st.matches[c.key];
      if !m.active then
        if m.event != key || !Retained(st, key, c) || m.version != c.expected + 1 then (st, Err(IdempotencyConflict))
        else (st, Ok(NowUnmatched))
      else if m.version != c.expected then (st, Err(StaleVersion))
      else
        (Record(st, key, c).(
           matches := st.matches[c.key := m.(active := false, version := m.version + 1, event := key)],
           lines := if m.line in st.lines && st.lines[m.line].status == Matched
                    then st.lines[m.line := WithStatus(st.lines[m.line], Unmatched)] else st.lines), Ok(NowUnmatched))
  }

  function IgnoreLine(st: State, c: Command): (State, Result<Outcome, Refusal>)
    requires c.Ignore?
  {
    var key := IgnoredAt(c.line, c.expected);
    if c.expected < 1 then (st, Err(InvalidInput))
    else if c.line !in st.lines then (st, Err(ReconciliationConflict))
    else
      var l := st.lines[c.line];
      if key in st.events || l.status == Ignored then
        if !Retained(st, key, c) || l.status != Ignored || l.version != c.expected + 1
        then (st, Err(IdempotencyConflict))
        else (st, Ok(NowIgnored))
      else if l.status != Unmatched || l.version != c.expected then (st, Err(ReconciliationConflict))
      else (Record(st, key, c).(lines := st.lines[c.line := WithStatus(l, Ignored)]), Ok(NowIgnored))
  }

  function UnignoreLine(st: State, c: Command): (State, Result<Outcome, Refusal>)
    requires c.Unignore?
  {
    var key := UnignoredBy(c.line, c.request);
    if c.expected < 1 then (st, Err(InvalidInput))
    else if c.line !in st.lines then (st, Err(MissingDocument))
    else
      var l := st.lines[c.line];
      if key in st.events && !Retained(st, key, c) then (st, Err(IdempotencyConflict))
      else if key in st.events then
        if l.status != Unmatched || l.version != c.expected + 1 then (st, Err(IdempotencyConflict))
        else (st, Ok(NowUnignored))
      else if l.version != c.expected then (st, Err(StaleVersion))
      else if l.status != Ignored then (st, Err(ReconciliationConflict))
      else (Record(st, key, c).(lines := st.lines[c.line := WithStatus(l, Unmatched)]), Ok(NowUnignored))
  }

  function Step(st: State, c: Command): (State, Result<Outcome, Refusal>) {
    match c
    case Ingest(_, _, _, _, _, _) => IngestLine(st, c)
    case MatchLine(_, _, _, _, _, _, _) => MatchOne(st, c)
    case Unmatch(_, _, _) => UnmatchOne(st, c)
    case Ignore(_, _, _) => IgnoreLine(st, c)
    case Unignore(_, _, _, _) => UnignoreLine(st, c)
  }

  // ---- the commands in place ----

  class Service {
    var lines: map<nat, Line>
    var matches: map<nat, Match>
    var events: map<EventKey, Command>

    constructor ()
      ensures Snapshot() == EMPTY
    {
      lines, matches, events := map[], map[], map[];
    }

    function Snapshot(): State
      reads this
    {
      State(lines, matches, events)
    }

    method IngestStatementLine(c: Command) returns (r: Result<Outcome, Refusal>)
      requires c.Ingest?
      modifies this
      ensures (Snapshot(), r) == Step(old(Snapshot()), c)
    {
      var key := Ingested(c.line);
      if c.amount == 0 { return Err(InvalidInput); }
      if !c.inBook { return Err(MissingAccount); }
      if c.line in lines {
        var l := lines[c.line];
        if l.account != c.account || l.amount != c.amount || l.content != c.content { return Err(IdempotencyConflict); }
      }
      if key in events && events[key] != Content(c) { return Err(IdempotencyConflict); }
      if c.line !in lines { lines := lines[c.line := Line(c.account, c.amount, c.content, Unmatched, 1)]; }
      events := events[key := Content(c)];
      return Ok(NowIngested);
    }

    method MatchStatementLine(c: Command) returns (r: Result<Outcome, Refusal>)
      requires c.MatchLine?
      modifies this
      ensures (Snapshot(), r) == Step(old(Snapshot()), c)
    {
      var key := MatchedBy(c.key);
      if c.expected < 1 { return Err(InvalidInput); }
      if c.key in matches {
        var m := matches[c.key];
        if m.line != c.line || m.tx != c.tx || m.manual != c.manual { return Err(IdempotencyConflict); }
        if !m.active { return Err(TerminalState); }
        if m.event != key || key !in events || events[key] != Content(c) { return Err(IdempotencyConflict); }
        return Ok(AlreadyMatched);
      }
      if c.line !in lines { return Err(MissingDocument); }
      var l := lines[c.line];
      if l.status != Unmatched { return Err(ReconciliationConflict); }
      if l.version != c.expected { return Err(StaleVersion); }
      if c.found.None? { return Err(MissingDocument); }
      if c.found.value != l.amount { return Err(ReconciliationConflict); }
      if LineActive(Snapshot(), c.line) { return Err(LineTaken); }
      if TransactionActive(Snapshot(), c.tx) { return Err(TransactionTaken); }
      events := events[key := Content(c)];
      matches := matches[c.key := Match(c.line, c.tx, Abs(l.amount), c.manual, true, 1, key)];
      lines := lines[c.line := l.(status := Matched, version := l.version + 1)];
      return Ok(NowMatched);
    }

    method UnmatchStatementLine(c: Command) returns (r: Result<Outcome, Refusal>)
      requires c.Unmatch?
      modifies this
      ensures (Snapshot(), r) == Step(old(Snapshot()), c)
    {
      var key := UnmatchedAt(c.key, c.expected);
      if c.expected < 1 { return Err(InvalidInput); }
      if c.key !in matches { return Err(MissingDocument); }
      var m := matches[c.key];
      if !m.active {
        if m.event != key || key !in events || events[key] != Content(c) || m.version != c.expected + 1 {
          return Err(IdempotencyConflict);
        }
        return Ok(NowUnmatched);
      }
      if m.version != c.expected { return Err(StaleVersion); }
      events := events[key := Content(c)];
      matches := matches[c.key := m.(active := false, version := m.version + 1, event := key)];
      if m.line in lines && lines[m.line].status == Matched {
        var l := lines[m.line];
        lines := lines[m.line := l.(status := Unmatched, version := l.version + 1)];
      }
      return Ok(NowUnmatched);
    }

    method IgnoreStatementLine(c: Command) returns (r: Result<Outcome, Refusal>)
      requires c.Ignore?
      modifies this
      ensures (Snapshot(), r) == Step(old(Snapshot()), c)
    {
      var key := IgnoredAt(c.line, c.expected);
      if c.expected < 1 { return Err(InvalidInput); }
      if c.line !in lines { return Err(ReconciliationConflict); }
      var l := lines[c.line];
      if key in events || l.status == Ignored {
        if key !in events || events[key] != Content(c) || l.status != Ignored || l.version != c.expected + 1 {
          return Err(IdempotencyConflict);
        }
        return Ok(NowIgnored);
      }
      if l.status != Unmatched || l.version != c.expected { return Err(ReconciliationConflict); }
      lines := lines[c.line := l.(status := Ignored, version := l.version + 1)];
      events := events[key := Content(c)];
      return Ok(NowIgnored);
    }

    method UnignoreStatementLine(c: Command) returns (r: Result<Outcome, Refusal>)
      requires c.Unignore?
      modifies this
      ensures (Snapshot(), r) == Step(old(Snapshot()), c)
    {
      var key := UnignoredBy(c.line, c.request);
      if c.expected < 1 { return Err(InvalidInput); }
      if c.line !in lines { return Err(MissingDocument); }
      var l := lines[c.line];
      if key in events {
        if events[key] != Content(c) || l.status != Unmatched || l.version != c.expected + 1 {
          return Err(IdempotencyConflict);
        }
        return Ok(NowUnignored);
      }
      if l.version != c.expected { return Err(StaleVersion); }
      if l.status != Ignored { return Err(ReconciliationConflict); }
      events := events[key := Content(c)];
      lines := lines[c.line := l.(status := Unmatched, version := l.version + 1)];
      return Ok(NowUnignored);
    }
  }
}
