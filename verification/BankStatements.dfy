/** The bank statement lifecycle: draft, completed and cancelled statements over cleared postings, with an
    immutable clearing history and one receipt for every accepted or retired command (src/bank-statements.ts).
    Identities are numbers, read as ranks in the database's text order; amounts are cents; dates are ordered
    integers. Each database transaction is one atomic step under the source lock. */
module BankStatements {
  import opened Wrappers
  import opened Sums

  datatype Status = Draft | Completed | Cancelled

  /** `created` is the row's place in insertion order; `event` the key of its latest lifecycle event. */
  datatype Statement = Statement(
    account: nat, date: int, status: Status, version: nat, opening: int, closing: int,
    preparedBy: nat, completedBy: Option<nat>, previous: Option<nat>, created: nat, event: Option<nat>)

  datatype Clearing = Clearing(statement: nat, date: int, amount: int)

  datatype Change = Added | Removed

  datatype HistoryRow = HistoryRow(statement: nat, version: nat, change: Change, posting: nat, amount: int, key: nat)

  datatype Detail =
    | Prepare(account: nat, date: int, closing: int, adds: set<nat>, removes: set<nat>)
    | Complete
    | Reopen
    | Cancel

  /** A command's whole content, which its checksum identifies. `rationale` stands for the approver and the
      reason code; a prepare names its statement by the identity made from the external statement id. */
  datatype Command = Command(
    statement: nat, key: nat, expectedVersion: nat, actor: nat, rationale: nat, reason: string, detail: Detail)

  /** The projected statement that a command returns and its receipt keeps. */
  datatype Projection = Projection(
    statement: nat, account: nat, date: int, status: Status, version: nat, opening: int, closing: int,
    selectedAmount: int, selectedCount: nat, difference: int,
    preparedBy: nat, completedBy: Option<nat>, previous: Option<nat>, event: Option<nat>)

  /** The decision to retire an uncertain command. */
  datatype Operation = Operation(actor: nat, rationale: nat, reason: string)

  datatype Receipt =
    | Accepted(command: Command, result: Projection)
    | Retired(command: Command, operation: Operation)

  datatype RetireResult =
    | NowRetired
    | AlreadyRetired
    | AlreadyRecorded(original: Projection, current: Projection)

  datatype Refusal =
    | InvalidInput
    | IdempotencyConflict
    | PeriodLocked
    | MissingDocument
    | Conflict
    | NotAuthorized
    | ScopeMismatch

  datatype State = State(
    statements: map<nat, Statement>, clearings: map<nat, Clearing>, history: set<HistoryRow>,
    receipts: map<nat, Receipt>)

  const EMPTY := State(map[], map[], {}, map[])

  // ---- what a command reads outside the statement tables ----

  datatype LedgerPosting = LedgerPosting(account: nat, basis: nat, currency: nat, date: int, net: int, posted: bool)

  datatype Book = Book(basis: nat, currency: nat)

  /** The posting gate's verdict on the statement date, the active book with this account if there is one,
      the scope's currency, and the canonical ledger at the time of the command. */
  datatype Facts = Facts(dateAllowed: bool, book: Option<Book>, currency: nat, ledger: map<nat, LedgerPosting>)

  // ---- selections ----

  function SelectedIds(clearings: map<nat, Clearing>, statement: nat): set<nat> {
    set p | p in clearings && clearings[p].statement == statement
  }

  ghost function AmountOf(clearings: map<nat, Clearing>): nat -> int {
    p => if p in clearings then clearings[p].amount else 0
  }

  ghost function SelectedAmount(clearings: map<nat, Clearing>, statement: nat): int {
    SumOver(SelectedIds(clearings, statement), AmountOf(clearings))
  }

  ghost function Project(clearings: map<nat, Clearing>, statement: nat, row: Statement): Projection {
    var amount := SelectedAmount(clearings, statement);
    Projection(statement, row.account, row.date, row.status, row.version, row.opening, row.closing,
               amount, |SelectedIds(clearings, statement)|, row.closing - row.opening - amount,
               row.preparedBy, row.completedBy, row.previous, row.event)
  }

  // ---- the checks ----

  predicate Malformed(c: Command) {
    match c.detail
    case Prepare(_, _, _, adds, removes) => |adds| > 500 || |removes| > 500
    case Complete => false
    case _ => |c.reason| < 10
  }

  predicate Contradictory(c: Command) {
    c.detail.Prepare? && c.detail.adds * c.detail.removes != {}
  }

  predicate HasDraft(statements: map<nat, Statement>, account: nat, except: nat) {
    exists s | s in statements :: s != except && statements[s].account == account && statements[s].status == Draft
  }

  /** The latest completed statement of an account: by date, then by identity. */
  predicate IsLatest(statements: map<nat, Statement>, account: nat, s: nat) {
    && s in statements && statements[s].account == account && statements[s].status == Completed
    && forall q | q in statements && statements[q].account == account && statements[q].status == Completed ::
         statements[q].date < statements[s].date || (statements[q].date == statements[s].date && q <= s)
  }

  predicate HasDependent(statements: map<nat, Statement>, statement: nat) {
    exists s | s in statements :: statements[s].previous == Some(statement) && statements[s].status != Cancelled
  }

  predicate Eligible(facts: Facts, account: nat, date: int, p: nat) {
    && facts.book.Some? && p in facts.ledger
    && facts.ledger[p].account == account && facts.ledger[p].basis == facts.book.value.basis
    && facts.ledger[p].currency == facts.currency && facts.ledger[p].date <= date
    && facts.ledger[p].net != 0 && facts.ledger[p].posted
  }

  // ---- what a command does to the tables ----

  /** The statement's new row, and the clearings taken out and put in. */
  datatype Effect = Effect(row: Statement, removed: set<nat>, added: map<nat, Clearing>)

  ghost function NewRow(st: State, c: Command): Result<Statement, Refusal>
    requires c.detail.Prepare?
  {
    var d := c.detail;
    if c.statement in st.statements then
      var row := st.statements[c.statement];
      if row.status != Draft || row.version != c.expectedVersion || row.account != d.account then Err(Conflict)
      else Ok(row.(date := d.date, closing := d.closing, preparedBy := c.actor, version := row.version + 1))
    else if HasDraft(st.statements, d.account, c.statement) then Err(Conflict)
    else if c.expectedVersion != 0 || d.removes != {} then Err(Conflict)
    else if exists p :: IsLatest(st.statements, d.account, p) then
      var p :| IsLatest(st.statements, d.account, p);
      if st.statements[p].date >= d.date then Err(Conflict)
      else Ok(Statement(d.account, d.date, Draft, 1, st.statements[p].closing, d.closing, c.actor, None, Some(p),
                        |st.statements|, None))
    else Ok(Statement(d.account, d.date, Draft, 1, 0, d.closing, c.actor, None, None, |st.statements|, None))
  }

  function NewClearings(c: Command, facts: Facts): map<nat, Clearing>
    requires c.detail.Prepare? && c.detail.adds <= facts.ledger.Keys
  {
    map p | p in c.detail.adds :: Clearing(c.statement, facts.ledger[p].date, facts.ledger[p].net)
  }

  ghost function PrepareEffect(st: State, c: Command, facts: Facts): Result<Effect, Refusal>
    requires c.detail.Prepare?
  {
    var d := c.detail;
    if !facts.dateAllowed then Err(PeriodLocked)
    else if facts.book.None? then Err(MissingDocument)
    else if facts.book.value.currency != facts.currency then Err(Conflict)
    else
      match NewRow(st, c)
      case Err(e) => Err(e)
      case Ok(row) =>
        if !(d.removes <= SelectedIds(st.clearings, c.statement)) then Err(Conflict)
        else if exists p | p in d.adds :: !Eligible(facts, d.account, d.date, p) || p in st.clearings - d.removes
        then Err(Conflict)
        else if exists p | p in st.clearings - d.removes ::
                  st.clearings[p].statement == c.statement && st.clearings[p].date > d.date
        then Err(Conflict)
        else Ok(Effect(row, d.removes, NewClearings(c, facts)))
  }

  ghost function TransitionEffect(st: State, c: Command, facts: Facts): Result<Effect, Refusal>
    requires !c.detail.Prepare?
  {
    if c.statement !in st.statements then Err(MissingDocument)
    else
      var row := st.statements[c.statement];
      if !facts.dateAllowed then Err(PeriodLocked)
      else if row.version != c.expectedVersion || row.status != (if c.detail.Reopen? then Completed else Draft)
      then Err(Conflict)
      else match c.detail
        case Complete =>
          if row.preparedBy == c.actor then Err(NotAuthorized)
          else if Project(st.clearings, c.statement, row).difference != 0 then Err(Conflict)
          else Ok(Effect(row.(status := Completed, completedBy := Some(c.actor), version := row.version + 1), {},
                         map[]))
        case Reopen =>
          if row.completedBy == Some(c.actor) then Err(NotAuthorized)
          else if HasDependent(st.statements, c.statement) then Err(Conflict)
          else if HasDraft(st.statements, row.account, c.statement) then Err(Conflict)
          else Ok(Effect(row.(status := Draft, completedBy := None, version := row.version + 1), {}, map[]))
        case Cancel =>
          Ok(Effect(row.(status := Cancelled, completedBy := None, version := row.version + 1),
                    SelectedIds(st.clearings, c.statement), map[]))
  }

  ghost function EffectOf(st: State, c: Command, facts: Facts): Result<Effect, Refusal> {
    if c.detail.Prepare? then PrepareEffect(st, c, facts) else TransitionEffect(st, c, facts)
  }

  function Rows(c: Command, e: Effect, clearings: map<nat, Clearing>): set<HistoryRow>
    requires e.removed <= clearings.Keys
  {
    (set p | p in e.removed :: HistoryRow(c.statement, e.row.version, Removed, p, clearings[p].amount, c.key))
    + (set p | p in e.added :: HistoryRow(c.statement, e.row.version, Added, p, e.added[p].amount, c.key))
  }

  /** Writing an effect with its history rows and its receipt. */
  ghost function Commit(st: State, c: Command, e: Effect): (State, Projection)
    requires e.removed <= st.clearings.Keys
  {
    var row := e.row.(event := Some(c.key));
    var clearings := (st.clearings - e.removed) + e.added;
    var result := Project(clearings, c.statement, row);
    (State(st.statements[c.statement := row], clearings, st.history + Rows(c, e, st.clearings),
           st.receipts[c.key := Accepted(c, result)]), result)
  }

  lemma EffectWithinClearings(st: State, c: Command, facts: Facts)
    ensures EffectOf(st, c, facts).Ok? ==> EffectOf(st, c, facts).value.removed <= st.clearings.Keys
  {
    hide NewRow, Project;
  }

  /** A statement command: replayed from its receipt, refused without a change, or carried out. */
  ghost function Execute(st: State, c: Command, facts: Facts): (State, Result<Projection, Refusal>) {
    if Malformed(c) then (st, Err(InvalidInput))
    else if Contradictory(c) then (st, Err(Conflict))
    else if c.key in st.receipts then
      match st.receipts[c.key]
      case Accepted(command, result) => (st, if command == c then Ok(result) else Err(IdempotencyConflict))
      case Retired(_, _) => (st, Err(IdempotencyConflict))
    else
      EffectWithinClearings(st, c, facts);
      match EffectOf(st, c, facts)
      case Err(e) => (st, Err(e))
      case Ok(e) => var (next, result) := Commit(st, c, e); (next, Ok(result))
  }

  /** Retiring an uncertain command. `provenance`: the command's account, book, source and currency exist. */
  ghost function Retire(st: State, c: Command, o: Operation, provenance: bool): (State, Result<RetireResult, Refusal>) {
    if Malformed(c) then (st, Err(InvalidInput))
    else if Contradictory(c) then (st, Err(Conflict))
    else if o.actor != c.actor then (st, Err(NotAuthorized))
    else if c.key in st.receipts then
      match st.receipts[c.key]
      case Retired(command, operation) =>
        (st, if command == c && operation == o then Ok(AlreadyRetired) else Err(IdempotencyConflict))
      case Accepted(command, result) =>
        if command != c then (st, Err(IdempotencyConflict))
        else if c.statement !in st.statements then (st, Err(MissingDocument))
        else (st, Ok(AlreadyRecorded(result, Project(st.clearings, c.statement, st.statements[c.statement]))))
    else if c.detail.Prepare? && !provenance then (st, Err(ScopeMismatch))
    else if !c.detail.Prepare? && c.statement !in st.statements then (st, Err(MissingDocument))
    else (st.(receipts := st.receipts[c.key := Retired(c, o)]), Ok(NowRetired))
  }

  // ---- the service ----

  lemma LatestUnique(statements: map<nat, Statement>, account: nat, p: nat, q: nat)
    requires IsLatest(statements, account, p) && IsLatest(statements, account, q)
    ensures p == q
  {
  }

  /** The four tables, changed step by step as the source does. A refused command rolls back. */
  class Service {
    var statements: map<nat, Statement>
    var clearings: map<nat, Clearing>
    var history: set<HistoryRow>
    var receipts: map<nat, Receipt>

    constructor ()
      ensures Snapshot() == EMPTY
    {
      statements, clearings, history, receipts := map[], map[], {}, map[];
    }

    function Snapshot(): State
      reads this
    {
      State(statements, clearings, history, receipts)
    }

    /** The database's sum over a statement's clearings. */
    method SumSelected(statement: nat) returns (amount: int)
      ensures amount == SelectedAmount(clearings, statement)
    {
      var left := SelectedIds(clearings, statement);
      ghost var all := left;
      ghost var f := AmountOf(clearings);
      amount := 0;
      while left != {}
        invariant left <= all
        invariant amount + SumOver(left, f) == SumOver(all, f)
        decreases |left|
      {
        var p :| p in left;
        SumOverRemove(left, f, p);
        amount := amount + clearings[p].amount;
        left := left - {p};
      }
    }

    method ProjectRow(statement: nat, row: Statement) returns (r: Projection)
      ensures r == Project(clearings, statement, row)
    {
      var amount := SumSelected(statement);
      r := Projection(statement, row.account, row.date, row.status, row.version, row.opening, row.closing,
                      amount, |SelectedIds(clearings, statement)|, row.closing - row.opening - amount,
                      row.preparedBy, row.completedBy, row.previous, row.event);
    }

    /** The accepted result under this key, a conflict, or nothing when the key is unused. */
    method Replay(c: Command) returns (r: Option<Result<Projection, Refusal>>)
      ensures r == if c.key !in receipts then None
                   else match receipts[c.key]
                        case Accepted(command, result) =>
                          Some(if command == c then Ok(result) else Err(IdempotencyConflict))
                        case Retired(_, _) => Some(Err(IdempotencyConflict))
    {
      if c.key !in receipts { return None; }
      match receipts[c.key] {
        case Accepted(command, result) => return Some(if command == c then Ok(result) else Err(IdempotencyConflict));
        case Retired(_, _) => return Some(Err(IdempotencyConflict));
      }
    }

    /** Stores the receipt, the history rows and the statement's event, once row and clearings are written. */
    method Record(c: Command, row: Statement, rows: set<HistoryRow>) returns (result: Projection)
      modifies this`statements, this`history, this`receipts
      ensures result == Project(clearings, c.statement, row.(event := Some(c.key)))
      ensures statements == old(statements)[c.statement := row.(event := Some(c.key))]
      ensures history == old(history) + rows
      ensures receipts == old(receipts)[c.key := Accepted(c, result)]
    {
      result := ProjectRow(c.statement, row.(event := Some(c.key)));
      receipts := receipts[c.key := Accepted(c, result)];
      history := history + rows;
      statements := statements[c.statement := row.(event := Some(c.key))];
    }

    /** The header step of a prepare: insert a new draft after the latest completed statement, or update the draft. */
    method PrepareHeader(c: Command) returns (r: Result<Statement, Refusal>)
      requires c.detail.Prepare?
      modifies this`statements
      ensures r == NewRow(old(Snapshot()), c)
      ensures statements == if r.Ok? then old(statements)[c.statement := r.value] else old(statements)
    {
      var d := c.detail;
      if c.statement !in statements {
        if HasDraft(statements, d.account, c.statement) { return Err(Conflict); }
        if c.expectedVersion != 0 || d.removes != {} { return Err(Conflict); }
        var row;
        if exists p | p in statements :: IsLatest(statements, d.account, p) {
          var p :| p in statements && IsLatest(statements, d.account, p);
          forall q | IsLatest(statements, d.account, q) ensures q == p { LatestUnique(statements, d.account, p, q); }
          if statements[p].date >= d.date { return Err(Conflict); }
          row := Statement(d.account, d.date, Draft, 1, statements[p].closing, d.closing, c.actor, None, Some(p),
                           |statements|, None);
        } else {
          row := Statement(d.account, d.date, Draft, 1, 0, d.closing, c.actor, None, None, |statements|, None);
        }
        statements := statements[c.statement := row];
        return Ok(row);
      }
      var row := statements[c.statement];
      if row.status != Draft || row.version != c.expectedVersion || row.account != d.account { return Err(Conflict); }
      row := row.(date := d.date, closing := d.closing, preparedBy := c.actor, version := row.version + 1);
      statements := statements[c.statement := row];
      return Ok(row);
    }

    method PrepareStatement(c: Command, facts: Facts) returns (r: Result<Projection, Refusal>)
      requires c.detail.Prepare?
      modifies this
      ensures (Snapshot(), r) == Execute(old(Snapshot()), c, facts)
    {
      hide Project, NewRow, Rows, NewClearings;
      if Malformed(c) { return Err(InvalidInput); }
      if Contradictory(c) { return Err(Conflict); }
      var prior := Replay(c);
      if prior.Some? { return prior.value; }
      if !facts.dateAllowed { return Err(PeriodLocked); }
      if facts.book.None? { return Err(MissingDocument); }
      if facts.book.value.currency != facts.currency { return Err(Conflict); }
      var d, before, cleared := c.detail, statements, clearings;
      var header := PrepareHeader(c);
      if header.Err? { return Err(header.error); }
      if !(d.removes <= SelectedIds(clearings, c.statement)) {
        statements := before;
        return Err(Conflict);
      }
      clearings := clearings - d.removes;
      if exists p | p in d.adds :: !Eligible(facts, d.account, d.date, p) || p in clearings {
        statements, clearings := before, cleared;
        return Err(Conflict);
      }
      ghost var kept := clearings;
      clearings := clearings + NewClearings(c, facts);
      if exists p | p in clearings :: clearings[p].statement == c.statement && clearings[p].date > d.date {
        CutoffFromKept(c, facts, kept);
        statements, clearings := before, cleared;
        return Err(Conflict);
      }
      CutoffFromKept(c, facts, kept);
      ghost var e := Effect(header.value, d.removes, NewClearings(c, facts));
      var rows := Rows(c, Effect(header.value, d.removes, NewClearings(c, facts)), cleared);
      assert PrepareEffect(old(Snapshot()), c, facts) == Ok(e);
      var result := Record(c, header.value, rows);
      assert statements == before[c.statement := header.value.(event := Some(c.key))];
      assert (Snapshot(), result) == Commit(old(Snapshot()), c, e);
      return Ok(result);
    }

    method Transition(c: Command, facts: Facts) returns (r: Result<Projection, Refusal>)
      requires !c.detail.Prepare?
      modifies this
      ensures (Snapshot(), r) == Execute(old(Snapshot()), c, facts)
    {
      hide Rows, HasDraft, HasDependent, SelectedAmount;
      if Malformed(c) { return Err(InvalidInput); }
      var prior := Replay(c);
      if prior.Some? { return prior.value; }
      if c.statement !in statements { return Err(MissingDocument); }
      var row := statements[c.statement];
      if !facts.dateAllowed { return Err(PeriodLocked); }
      if row.version != c.expectedVersion || row.status != (if c.detail.Reopen? then Completed else Draft) {
        return Err(Conflict);
      }
      var removed: set<nat> := {};
      var cleared := clearings;
      match c.detail {
        case Complete =>
          if row.preparedBy == c.actor { return Err(NotAuthorized); }
          var projected := ProjectRow(c.statement, row);
          if projected.difference != 0 { return Err(Conflict); }
          row := row.(status := Completed, completedBy := Some(c.actor), version := row.version + 1);
        case Reopen =>
          if row.completedBy == Some(c.actor) { return Err(NotAuthorized); }
          if HasDependent(statements, c.statement) { return Err(Conflict); }
          if HasDraft(statements, row.account, c.statement) { return Err(Conflict); }
          row := row.(status := Draft, completedBy := None, version := row.version + 1);
        case Cancel =>
          // Two updates: the version first, so that the deletions belong to it, then the status.
          row := row.(version := row.version + 1);
          statements := statements[c.statement := row];
          removed := SelectedIds(clearings, c.statement);
          clearings := clearings - removed;
          row := row.(status := Cancelled, completedBy := None);
      }
      statements := statements[c.statement := row];
      ghost var e := Effect(row, removed, map[]);
      assert TransitionEffect(old(Snapshot()), c, facts) == Ok(e);
      var rows := Rows(c, Effect(row, removed, map[]), cleared);
      assert clearings == (cleared - removed) + map[];
      var result := Record(c, row, rows);
      assert statements == old(statements)[c.statement := row.(event := Some(c.key))];
      assert (Snapshot(), result) == Commit(old(Snapshot()), c, e);
      return Ok(result);
    }

    method RetireCommandAttempt(c: Command, o: Operation, provenance: bool) returns (r: Result<RetireResult, Refusal>)
      modifies this`receipts
      ensures (Snapshot(), r) == Retire(old(Snapshot()), c, o, provenance)
    {
      if Malformed(c) { return Err(InvalidInput); }
      if Contradictory(c) { return Err(Conflict); }
      if o.actor != c.actor { return Err(NotAuthorized); }
      if c.key in receipts {
        var receipt := receipts[c.key];
        if receipt.Retired? {
          return if receipt.command == c && receipt.operation == o
                 then Ok(AlreadyRetired) else Err(IdempotencyConflict);
        }
        if receipt.command != c { return Err(IdempotencyConflict); }
        if c.statement !in statements { return Err(MissingDocument); }
        var current := ProjectRow(c.statement, statements[c.statement]);
        return Ok(AlreadyRecorded(receipt.result, current));
      }
      if c.detail.Prepare? && !provenance { return Err(ScopeMismatch); }
      if !c.detail.Prepare? && c.statement !in statements { return Err(MissingDocument); }
      receipts := receipts[c.key := Retired(c, o)];
      return Ok(NowRetired);
    }
  }

  /** Postings put in by a prepare never break its cutoff: only the ones kept can. */
  lemma CutoffFromKept(c: Command, facts: Facts, kept: map<nat, Clearing>)
    requires c.detail.Prepare? && c.detail.adds <= facts.ledger.Keys
    requires forall p | p in c.detail.adds :: Eligible(facts, c.detail.account, c.detail.date, p) && p !in kept
    ensures var all := kept + NewClearings(c, facts);
            (exists p | p in all :: all[p].statement == c.statement && all[p].date > c.detail.date)
            <==> (exists p | p in kept :: kept[p].statement == c.statement && kept[p].date > c.detail.date)
  {
    var all := kept + NewClearings(c, facts);
    forall p | p in kept ensures p in all && all[p] == kept[p] { }
    forall p | p in all && p !in kept ensures all[p].date <= c.detail.date { }
  }
}
