/** Fiscal periods, the posting lock date, gated postings and close certificates
    (src/fiscal-periods.ts and src/fiscal-close-certificates.ts). Dates are ordered integers and amounts cents.
    Every command holds the fiscal scope's exclusive lock, so it is one atomic step. */
module FiscalPeriods {
  import opened Wrappers
  import opened Orders

  datatype Status = Open | Closing | Closed

  /** A lifecycle event is identified by its idempotency key. */
  datatype EventKey =
    | Defined(year: nat, number: nat)
    | BeginClose(period: PeriodId, version: nat)
    | Close(period: PeriodId, version: nat)
    | CanonicalClose(key: nat)
    | Reopen(period: PeriodId, version: nat)
    | LockChange(request: nat)

  /** The identity is a digest of exactly these fields. */
  datatype PeriodId = PeriodId(year: nat, number: nat)

  datatype Period = Period(
    start: int, end: int, status: Status, version: nat, closeEvent: Option<EventKey>, reopenEvent: Option<EventKey>)

  datatype Control = Control(lock: Option<int>, version: nat)

  /** The groups of control totals: account, accounting basis and currency. */
  datatype Group = Group(account: nat, basis: nat, currency: nat)

  datatype Posting = Posting(date: int, group: Group, debit: int, credit: int)

  datatype Totals = Totals(
    openingNet: int, debit: int, credit: int, closingNet: int, postingCount: nat, historicalCount: nat)

  /** A configured bank account, with the event of the statement that supports it when it had activity. */
  datatype Bank = Bank(account: nat, evidence: Option<nat>)

  /** What a canonical close finds: its book, its readiness diagnostics, the basis and currency, and the banks. */
  datatype Readiness = Readiness(bookActive: bool, ready: bool, basis: nat, currency: nat, diagnostics: nat,
                                 banks: seq<Bank>)

  datatype Certificate = Certificate(
    period: PeriodId, command: Command, version: nat, closeEvent: EventKey, start: int, end: int,
    totals: map<Group, Totals>,
    readiness: Readiness)

  /** `events` keeps what each accepted event's checksum covers: its command's content. */
  datatype State = State(
    periods: map<PeriodId, Period>, control: Option<Control>, ledger: seq<Posting>,
    certificates: map<nat, Certificate>, events: map<EventKey, Command>)

  const EMPTY := State(map[], None, [], map[], map[])

  datatype Refusal =
    | InvalidInput
    | MissingPeriod
    | IdempotencyConflict
    | StaleVersion
    | WrongStatus
    | NotReady
    | MissingBook
    | MissingCertificate
    | InactiveBook
    | Overlap
    | DateLocked

  datatype Outcome =
    | NowDefined | AlreadyDefined | NowClosing | AlreadyClosing | NowClosed | AlreadyClosed
    | Reopened | LockSet | Posted

  // ---- control totals ----

  function Net(p: Posting): int {
    p.debit - p.credit
  }

  function AddPosting(t: Totals, p: Posting, start: int): Totals {
    if p.date < start then
      t.(openingNet := t.openingNet + Net(p), closingNet := t.closingNet + Net(p),
         historicalCount := t.historicalCount + 1)
    else
      Totals(t.openingNet, t.debit + p.debit, t.credit + p.credit, t.closingNet + Net(p), t.postingCount + 1,
             t.historicalCount + 1)
  }

  const ZERO := Totals(0, 0, 0, 0, 0, 0)

  /** One row per group that has postings up to the end date, summed as the capture query does. */
  function ControlTotals(ledger: seq<Posting>, start: int, end: int): map<Group, Totals> {
    if ledger == [] then map[]
    else
      var before := ControlTotals(ledger[..|ledger| - 1], start, end);
      var p := ledger[|ledger| - 1];
      if p.date > end then before
      else before[p.group := AddPosting(if p.group in before then before[p.group] else ZERO, p, start)]
  }

  /** The groups on which captured and current totals differ, present in only one of them or with other values. */
  function Differences(captured: map<Group, Totals>, current: map<Group, Totals>): set<Group> {
    set g | g in captured.Keys + current.Keys && (g !in captured || g !in current || captured[g] != current[g])
  }

  function CurrentDifferences(st: State, id: nat): set<Group>
    requires id in st.certificates
  {
    var c := st.certificates[id];
    Differences(c.totals, ControlTotals(st.ledger, c.start, c.end))
  }

  /** Whether the captured close is still the period's current close. */
  predicate ClosedAtCapturedVersion(st: State, id: nat)
    requires id in st.certificates
  {
    var c := st.certificates[id];
    && c.period in st.periods
    && st.periods[c.period].status == Closed
    && st.periods[c.period].version == c.version
    && st.periods[c.period].closeEvent == Some(c.closeEvent)
  }

  datatype TotalsVerification = TotalsVerification(matches: bool, differing: nat, captured: nat, current: nat)

  function TotalsVerified(st: State, id: nat): TotalsVerification
    requires id in st.certificates
  {
    var c := st.certificates[id];
    var differing := |CurrentDifferences(st, id)|;
    TotalsVerification(differing == 0, differing, |c.totals|, |ControlTotals(st.ledger, c.start, c.end)|)
  }

  datatype ClosedVerification = ClosedVerification(
    closedAtCapturedVersion: bool, bankEvidence: seq<nat>, matches: bool, totals: TotalsVerification)

  function ByAccount(banks: seq<Bank>): seq<Bank> {
    SortBy(banks, (a: Bank, b: Bank) => a.account <= b.account)
  }

  /** The statement events of the banks with activity, in their order. */
  function EvidenceOf(banks: seq<Bank>): seq<nat> {
    if banks == [] then []
    else
      var last := banks[|banks| - 1];
      EvidenceOf(banks[..|banks| - 1]) + if last.evidence.Some? then [last.evidence.value] else []
  }

  function ClosedVerified(st: State, id: nat): ClosedVerification
    requires id in st.certificates
  {
    var closed, totals := ClosedAtCapturedVersion(st, id), TotalsVerified(st, id);
    var banks := EvidenceOf(ByAccount(st.certificates[id].readiness.banks));
    ClosedVerification(closed, banks, closed && totals.matches, totals)
  }

  // ---- the posting gate ----

  predicate Covers(p: Period, date: int) {
    p.start <= date <= p.end
  }

  /** A posting date must be after the lock date and inside a period that takes postings. */
  predicate DateAllowed(st: State, date: int, closingAdjustment: bool) {
    && (st.control.Some? && st.control.value.lock.Some? ==> date > st.control.value.lock.value)
    && (exists id | id in st.periods :: Covers(st.periods[id], date))
    && forall id | id in st.periods && Covers(st.periods[id], date) ::
         st.periods[id].status == Open || (st.periods[id].status == Closing && closingAdjustment)
  }

  // ---- the book lock ----

  function Later(a: Option<int>, b: int): Option<int> {
    if a.Some? && a.value > b then a else Some(b)
  }

  function Advanced(control: Option<Control>, end: int): Option<Control> {
    match control
    case None => Some(Control(Some(end), 1))
    case Some(c) => Some(Control(Later(c.lock, end), c.version + 1))
  }

  ghost predicate IsLatestClosed(periods: map<PeriodId, Period>, date: int) {
    && (exists id | id in periods :: periods[id].status == Closed && periods[id].end == date)
    && forall id | id in periods && periods[id].status == Closed :: periods[id].end <= date
  }

  /** The latest closed period end, as the database's max; none without a closed period. */
  ghost function LatestClosed(periods: map<PeriodId, Period>): Option<int> {
    if exists d :: IsLatestClosed(periods, d) then var d :| IsLatestClosed(periods, d); Some(d) else None
  }

  ghost function Recomputed(control: Option<Control>, periods: map<PeriodId, Period>): Option<Control> {
    match control
    case None => None
    case Some(c) => Some(Control(LatestClosed(periods), c.version + 1))
  }

  // ---- commands ----

  /** `operation` stands for a command's actor, reason and evidence.
      `clean`: the close diagnostics find no drafts and no unbalanced groups. `found`: what a canonical close reads. */
  datatype Command =
    | DefinePeriod(id: PeriodId, start: int, end: int, operation: nat)
    | BeginClosing(id: PeriodId, expected: nat, operation: nat)
    | ClosePeriod(id: PeriodId, expected: nat, operation: nat, clean: bool)
    | CloseCanonical(id: PeriodId, expected: nat, key: nat, operation: nat, found: Readiness)
    | ReopenPeriod(id: PeriodId, expected: nat, operation: nat)
    | SetLock(lock: Option<int>, expected: nat, request: nat, operation: nat)
    | Post(lines: seq<Posting>, date: int, closingAdjustment: bool)

  predicate Overlaps(periods: map<PeriodId, Period>, start: int, end: int) {
    exists id | id in periods :: periods[id].start <= end && start <= periods[id].end
  }

  const NOT_COVERED := Readiness(true, true, 0, 0, 0, [])

  /** What the checksum of a command's event covers; the diagnostics found are not part of it. */
  function Content(c: Command): Command {
    match c
    case ClosePeriod(id, expected, operation, _) => ClosePeriod(id, expected, operation, true)
    case CloseCanonical(id, expected, key, operation, _) => CloseCanonical(id, expected, key, operation, NOT_COVERED)
    case _ => c
  }

  function WithEvent(st: State, key: EventKey, c: Command): State {
    st.(events := st.events[key := Content(c)])
  }

  /** The key was used before with other content. */
  predicate EventConflict(st: State, key: EventKey, c: Command) {
    key in st.events && st.events[key] != Content(c)
  }

  /** The key was used before with the same content. */
  predicate EventMatches(st: State, key: EventKey, c: Command) {
    key in st.events && st.events[key] == Content(c)
  }

  function Define(st: State, c: Command): (State, Result<Outcome, Refusal>)
    requires c.DefinePeriod?
  {
    var key := Defined(c.id.year, c.id.number);
    if c.id.year < 1 || c.id.number < 1 || c.id.number > 366 || c.start > c.end then (st, Err(InvalidInput))
    else if EventConflict(st, key, c) then (st, Err(IdempotencyConflict))
    else if c.id in st.periods then
      if st.periods[c.id].start != c.start || st.periods[c.id].end != c.end then (st, Err(InvalidInput))
      else (WithEvent(st, key, c), Ok(AlreadyDefined))
    else if Overlaps(st.periods, c.start, c.end) then (st, Err(Overlap))
    else (WithEvent(st, key, c).(periods := st.periods[c.id := Period(c.start, c.end, Open, 1, None, None)]),
          Ok(NowDefined))
  }

  function Begin(st: State, c: Command): (State, Result<Outcome, Refusal>)
    requires c.BeginClosing?
  {
    var key := BeginClose(c.id, c.expected);
    if c.expected < 1 then (st, Err(InvalidInput))
    else if c.id !in st.periods then (st, Err(MissingPeriod))
    else
      var p := st.periods[c.id];
      if p.status == Closing then
        if !EventMatches(st, key, c) then (st, Err(IdempotencyConflict))
        else if p.version != c.expected + 1 then (st, Err(StaleVersion))
        else (st, Ok(AlreadyClosing))
      else if p.status != Open then (st, Err(WrongStatus))
      else if p.version != c.expected then (st, Err(StaleVersion))
      else if EventConflict(st, key, c) then (st, Err(IdempotencyConflict))
      else (WithEvent(st, key, c).(periods := st.periods[c.id := p.(status := Closing, version := p.version + 1)]),
            Ok(NowClosing))
  }

  /** The period's closing transition, with the book lock advanced to its end. */
  function ClosedState(st: State, id: PeriodId, key: EventKey, c: Command): State
    requires id in st.periods
  {
    var p := st.periods[id];
    WithEvent(st, key, c).(
      periods := st.periods[id := p.(status := Closed, version := p.version + 1, closeEvent := Some(key))],
      control := Advanced(st.control, p.end))
  }

  function CloseWithEvidence(st: State, c: Command): (State, Result<Outcome, Refusal>)
    requires c.ClosePeriod?
  {
    var key := Close(c.id, c.expected);
    if c.expected < 1 then (st, Err(InvalidInput))
    else if c.id !in st.periods then (st, Err(MissingPeriod))
    else
      var p := st.periods[c.id];
      if p.status == Closed then
        if !EventMatches(st, key, c) || p.closeEvent != Some(key) then (st, Err(IdempotencyConflict))
        else if p.version != c.expected + 1 then (st, Err(StaleVersion))
        else (st, Ok(AlreadyClosed))
      else if p.version != c.expected then (st, Err(StaleVersion))
      else if p.status != Closing then (st, Err(WrongStatus))
      else if !c.clean then (st, Err(NotReady))
      else if EventConflict(st, key, c) then (st, Err(IdempotencyConflict))
      else (ClosedState(st, c.id, key, c), Ok(NowClosed))
  }

  /** A canonical close also captures the ledger's control totals in a certificate. */
  function CloseWithCertificate(st: State, c: Command): (State, Result<Outcome, Refusal>)
    requires c.CloseCanonical?
  {
    var key := CanonicalClose(c.key);
    if c.expected < 1 then (st, Err(InvalidInput))
    else if c.id !in st.periods then (st, Err(MissingPeriod))
    else
      var p := st.periods[c.id];
      if c.key in st.certificates then
        var saved := st.certificates[c.key];
        if saved.command != Content(c) || p.status != Closed || p.version != saved.version
          || p.closeEvent != Some(saved.closeEvent)
        then (st, Err(IdempotencyConflict))
        else (st, Ok(AlreadyClosed))
      else if p.version != c.expected then (st, Err(StaleVersion))
      else if p.status == Closed then (st, Err(WrongStatus))
      else if !c.found.bookActive then (st, Err(MissingBook))
      else if !c.found.ready then (st, Err(NotReady))
      else if EventConflict(st, key, c) then (st, Err(IdempotencyConflict))
      else
        var totals := ControlTotals(st.ledger, p.start, p.end);
        var certificate := Certificate(c.id, Content(c), p.version + 1, key, p.start, p.end, totals, c.found);
        (ClosedState(st, c.id, key, c).(certificates := st.certificates[c.key := certificate]), Ok(NowClosed))
  }

  ghost function ReopenClosed(st: State, c: Command): (State, Result<Outcome, Refusal>)
    requires c.ReopenPeriod?
  {
    var key := Reopen(c.id, c.expected);
    if c.expected < 1 then (st, Err(InvalidInput))
    else if c.id !in st.periods then (st, Err(MissingPeriod))
    else
      var p := st.periods[c.id];
      if p.status == Open && p.reopenEvent.Some? then
        if !EventMatches(st, key, c) || p.reopenEvent != Some(key) then (st, Err(IdempotencyConflict))
        else if p.version != c.expected + 1 then (st, Err(StaleVersion))
        else (st, Ok(Reopened))
      else if p.version != c.expected then (st, Err(StaleVersion))
      else if p.status != Closed then (st, Err(WrongStatus))
      else if EventConflict(st, key, c) then (st, Err(IdempotencyConflict))
      else
        var periods := st.periods[c.id := p.(status := Open, version := p.version + 1, reopenEvent := Some(key))];
        (WithEvent(st, key, c).(periods := periods, control := Recomputed(st.control, periods)), Ok(Reopened))
  }

  /** The manual lock change: an upsert guarded by the control's version. */
  function ChangeLock(st: State, c: Command): (State, Result<Outcome, Refusal>)
    requires c.SetLock?
  {
    var key := LockChange(c.request);
    if EventConflict(st, key, c) then (st, Err(IdempotencyConflict))
    else match st.control
      case None =>
        if c.expected != 0 then (st, Err(StaleVersion))
        else (WithEvent(st, key, c).(control := Some(Control(c.lock, 1))), Ok(LockSet))
      case Some(control) =>
        if control.version != c.expected then (st, Err(StaleVersion))
        else (WithEvent(st, key, c).(control := Some(Control(c.lock, control.version + 1))), Ok(LockSet))
  }

  function PostGated(st: State, c: Command): (State, Result<Outcome, Refusal>)
    requires c.Post?
  {
    if exists l | l in c.lines :: l.date != c.date then (st, Err(InvalidInput))
    else if !DateAllowed(st, c.date, c.closingAdjustment) then (st, Err(DateLocked))
    else (st.(ledger := st.ledger + c.lines), Ok(Posted))
  }

  ghost function Step(st: State, c: Command): (State, Result<Outcome, Refusal>) {
    match c
    case DefinePeriod(_, _, _, _) => Define(st, c)
    case BeginClosing(_, _, _) => Begin(st, c)
    case ClosePeriod(_, _, _, _) => CloseWithEvidence(st, c)
    case CloseCanonical(_, _, _, _, _) => CloseWithCertificate(st, c)
    case ReopenPeriod(_, _, _) => ReopenClosed(st, c)
    case SetLock(_, _, _, _) => ChangeLock(st, c)
    case Post(_, _, _) => PostGated(st, c)
  }

  lemma {:induction false} LatestClosedExists(periods: map<PeriodId, Period>, ids: set<PeriodId>) returns (d: int)
    requires ids != {} && ids <= periods.Keys && forall id | id in ids :: periods[id].status == Closed
    ensures exists id | id in ids :: periods[id].end == d
    ensures forall id | id in ids :: periods[id].end <= d
    decreases ids
  {
    var id :| id in ids;
    d := periods[id].end;
    if ids - {id} != {} {
      var rest := LatestClosedExists(periods, ids - {id});
      if rest > d { d := rest; }
    }
    assert forall i | i in ids :: i == id || i in ids - {id};
  }

  /** The recomputed lock is absent exactly without a closed period, and otherwise at or after every closed end. */
  lemma LatestClosedFacts(periods: map<PeriodId, Period>)
    ensures forall id | id in periods && periods[id].status == Closed ::
              LatestClosed(periods).Some? && LatestClosed(periods).value >= periods[id].end
    ensures LatestClosed(periods).Some? ==> IsLatestClosed(periods, LatestClosed(periods).value)
  {
    var ids := set id | id in periods && periods[id].status == Closed;
    if ids != {} {
      var d := LatestClosedExists(periods, ids);
      var id :| id in ids && periods[id].end == d;
      assert id in periods && periods[id].status == Closed && periods[id].end == d;
      assert forall i | i in periods && periods[i].status == Closed :: i in ids;
      assert IsLatestClosed(periods, d);
    } else {
      assert forall i | i in periods && periods[i].status == Closed :: i in ids;
    }
  }
}
