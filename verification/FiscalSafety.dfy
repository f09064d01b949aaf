/** Laws of whole runs of fiscal commands and gated postings: the lock date covers every closed period, and a
    certificate whose close is still current still equals the ledger. */
module FiscalSafety {
  import opened Wrappers
  import opened FiscalPeriods
  import opened Sums

  // ---- runs ----

  ghost function Next(st: State, c: Command): State {
    Step(st, c).0
  }

  ghost function Run(st: State, cs: seq<Command>): State {
    if cs == [] then st else Next(Run(st, cs[..|cs| - 1]), cs[|cs| - 1])
  }

  /** The date is at or after every closed period's end. */
  predicate Reaches(periods: map<PeriodId, Period>, lock: Option<int>) {
    forall id | id in periods && periods[id].status == Closed :: lock.Some? && periods[id].end <= lock.value
  }

  /** A manual lock change that is not set below a closed period's end. */
  predicate Respects(st: State, c: Command) {
    c.SetLock? ==> Reaches(st.periods, c.lock)
  }

  ghost predicate RespectfulRun(st: State, cs: seq<Command>) {
    cs == [] || (RespectfulRun(st, cs[..|cs| - 1]) && Respects(Run(st, cs[..|cs| - 1]), cs[|cs| - 1]))
  }

  // ---- the lock date ----

  function LockOf(st: State): Option<int> {
    if st.control.None? then None else st.control.value.lock
  }

  predicate LockCovers(st: State) {
    Reaches(st.periods, LockOf(st))
  }

  lemma ClosingKeepsLock(st: State, id: PeriodId, key: EventKey, c: Command)
    requires LockCovers(st) && id in st.periods
    ensures LockCovers(ClosedState(st, id, key, c))
  {
  }

  lemma StepKeepsLock(st: State, c: Command)
    requires LockCovers(st) && Respects(st, c)
    ensures LockCovers(Next(st, c))
  {
    hide LatestClosed, ControlTotals;
    match c
    case CloseCanonical(id, _, key, _, _) =>
      if id in st.periods { ClosingKeepsLock(st, id, CanonicalClose(key), c); }
    case ClosePeriod(id, expected, _, _) =>
      if id in st.periods { ClosingKeepsLock(st, id, Close(id, expected), c); }
    case ReopenPeriod(_, _, _) => LatestClosedFacts(Next(st, c).periods);
    case _ =>
  }

  /** Reopening a period brings the lock back to exactly the latest end still closed. */
  lemma ReopenSetsLatestClosed(st: State, c: Command)
    requires c.ReopenPeriod? && LockCovers(st) && Next(st, c) != st
    ensures var next := Next(st, c);
            && LockCovers(next)
            && (LockOf(next).Some? ==>
                  && (forall id | id in next.periods && next.periods[id].status == Closed ::
                        next.periods[id].end <= LockOf(next).value)
                  && exists id | id in next.periods ::
                       next.periods[id].status == Closed && next.periods[id].end == LockOf(next).value)
            && (LockOf(next).None? <==> forall id | id in next.periods :: next.periods[id].status != Closed)
  {
    hide LatestClosed;
    LatestClosedFacts(Next(st, c).periods);
  }

  // ---- periods never overlap ----

  ghost predicate PeriodsDisjoint(st: State) {
    && (forall id | id in st.periods :: st.periods[id].start <= st.periods[id].end)
    && (forall a, b | a in st.periods && b in st.periods && a != b ::
          st.periods[a].end < st.periods[b].start || st.periods[b].end < st.periods[a].start)
  }

  /** Only a definition adds a period, and no command moves one. */
  lemma PeriodsStay(st: State, c: Command)
    ensures forall id | id in st.periods ::
              && id in Next(st, c).periods
              && Next(st, c).periods[id].start == st.periods[id].start
              && Next(st, c).periods[id].end == st.periods[id].end
    ensures forall id | id in Next(st, c).periods && id !in st.periods ::
              c.DefinePeriod? && id == c.id && c.start <= c.end && !Overlaps(st.periods, c.start, c.end)
              && Next(st, c).periods[id].start == c.start && Next(st, c).periods[id].end == c.end
  {
    hide ControlTotals, LatestClosed, DateAllowed, Overlaps;
  }

  lemma StepKeepsDisjoint(st: State, c: Command)
    requires PeriodsDisjoint(st)
    ensures PeriodsDisjoint(Next(st, c))
  {
    hide Step, Next;
    PeriodsStay(st, c);
  }

  lemma {:induction false} RunKeepsDisjoint(cs: seq<Command>)
    ensures PeriodsDisjoint(Run(EMPTY, cs))
  {
    hide Next;
    if cs != [] {
      RunKeepsDisjoint(cs[..|cs| - 1]);
      StepKeepsDisjoint(Run(EMPTY, cs[..|cs| - 1]), cs[|cs| - 1]);
    }
  }

  /** In every reachable state at most one period covers a date, so the gate may read whichever covering period comes
      first: it decides as that period's status does. */
  lemma AnyCoveringPeriodDecides(cs: seq<Command>, id: PeriodId, date: int, closingAdjustment: bool)
    requires id in Run(EMPTY, cs).periods && Covers(Run(EMPTY, cs).periods[id], date)
    ensures var st := Run(EMPTY, cs);
            && (forall other | other in st.periods && Covers(st.periods[other], date) :: other == id)
            && (DateAllowed(st, date, closingAdjustment) <==>
                  && (LockOf(st).Some? ==> date > LockOf(st).value)
                  && (st.periods[id].status == Open || (st.periods[id].status == Closing && closingAdjustment)))
  {
    hide Run;
    RunKeepsDisjoint(cs);
  }

  // ---- control totals ----

  /** The postings of one group dated from `start` (when given) to `end`. */
  function Selected(ledger: seq<Posting>, g: Group, start: Option<int>, end: int): seq<Posting> {
    if ledger == [] then []
    else
      var before := Selected(ledger[..|ledger| - 1], g, start, end);
      var p := ledger[|ledger| - 1];
      if p.group == g && p.date <= end && (start.Some? ==> start.value <= p.date) then before + [p] else before
  }

  function Nets(ps: seq<Posting>): int { Sum(seq(|ps|, i requires 0 <= i < |ps| => Net(ps[i]))) }

  function Debits(ps: seq<Posting>): int { Sum(seq(|ps|, i requires 0 <= i < |ps| => ps[i].debit)) }

  function Credits(ps: seq<Posting>): int { Sum(seq(|ps|, i requires 0 <= i < |ps| => ps[i].credit)) }

  lemma SumsOfExtended(ps: seq<Posting>, p: Posting)
    ensures Nets(ps + [p]) == Nets(ps) + Net(p)
    ensures Debits(ps + [p]) == Debits(ps) + p.debit
    ensures Credits(ps + [p]) == Credits(ps) + p.credit
  {
    var all := ps + [p];
    assert seq(|all|, i requires 0 <= i < |all| => Net(all[i]))
           == seq(|ps|, i requires 0 <= i < |ps| => Net(ps[i])) + [Net(p)];
    assert seq(|all|, i requires 0 <= i < |all| => all[i].debit)
           == seq(|ps|, i requires 0 <= i < |ps| => ps[i].debit) + [p.debit];
    assert seq(|all|, i requires 0 <= i < |all| => all[i].credit)
           == seq(|ps|, i requires 0 <= i < |ps| => ps[i].credit) + [p.credit];
    SumAppend(seq(|ps|, i requires 0 <= i < |ps| => Net(ps[i])), [Net(p)]);
    SumAppend(seq(|ps|, i requires 0 <= i < |ps| => ps[i].debit), [p.debit]);
    SumAppend(seq(|ps|, i requires 0 <= i < |ps| => ps[i].credit), [p.credit]);
  }

  /** What a row of control totals says about its group's postings. */
  predicate Describes(t: Totals, all: seq<Posting>, before: seq<Posting>, within: seq<Posting>) {
    && t.openingNet == Nets(before) && t.closingNet == Nets(all)
    && t.debit == Debits(within) && t.credit == Credits(within)
    && t.postingCount == |within| && t.historicalCount == |all|
    && t.closingNet == t.openingNet + t.debit - t.credit
  }

  /** A group has a row exactly when it has a posting up to the end; the row sums exactly its postings, those
      before the start into the opening balance and the rest into the movement. */
  lemma {:induction false} ControlTotalsMeaning(ledger: seq<Posting>, start: int, end: int, g: Group)
    requires start <= end
    ensures var totals := ControlTotals(ledger, start, end);
            var all := Selected(ledger, g, None, end);
            && (g in totals <==> all != [])
            && (g in totals ==> Describes(totals[g], all, Selected(ledger, g, None, start - 1),
                                          Selected(ledger, g, Some(start), end)))
  {
    if ledger != [] {
      var rest := ledger[..|ledger| - 1];
      var p := ledger[|ledger| - 1];
      ControlTotalsMeaning(rest, start, end, g);
      SumsOfExtended(Selected(rest, g, None, end), p);
      SumsOfExtended(Selected(rest, g, None, start - 1), p);
      SumsOfExtended(Selected(rest, g, Some(start), end), p);
      SelectedNone(rest, g, start, end);
    }
  }

  lemma {:induction false} SelectedNone(ledger: seq<Posting>, g: Group, start: int, end: int)
    requires start <= end
    ensures Selected(ledger, g, None, end) == [] ==>
              Selected(ledger, g, None, start - 1) == [] && Selected(ledger, g, Some(start), end) == []
  {
    if ledger != [] { SelectedNone(ledger[..|ledger| - 1], g, start, end); }
  }

  function HistoricalCount(totals: map<Group, Totals>, g: Group): nat {
    if g in totals then totals[g].historicalCount else 0
  }

  /** Posting lines change the totals up to a date exactly when one of the lines is dated up to it: every such
      line counts, so no later correction hides it. */
  lemma {:induction false} TotalsUnchangedIff(ledger: seq<Posting>, lines: seq<Posting>, start: int, end: int)
    ensures ControlTotals(ledger + lines, start, end) == ControlTotals(ledger, start, end)
            <==> forall l | l in lines :: l.date > end
    ensures forall g ::
              HistoricalCount(ControlTotals(ledger + lines, start, end), g)
              >= HistoricalCount(ControlTotals(ledger, start, end), g)
  {
    if lines == [] {
      assert ledger + lines == ledger;
    } else {
      var front := lines[..|lines| - 1];
      var p := lines[|lines| - 1];
      TotalsUnchangedIff(ledger, front, start, end);
      var all := ledger + lines;
      assert all[..|all| - 1] == ledger + front && all[|all| - 1] == p;
      assert lines == front + [p];
      var now := ControlTotals(all, start, end);
      if p.date <= end {
        assert HistoricalCount(now, p.group) == HistoricalCount(ControlTotals(ledger + front, start, end), p.group) + 1;
        assert now != ControlTotals(ledger, start, end);
      }
    }
  }

  // ---- certificates ----

  /** What a certificate keeps saying about its period and, while its close is current, about the ledger. */
  predicate Holds(st: State, c: Certificate) {
    && c.period in st.periods
    && var p := st.periods[c.period];
    && c.start == p.start && c.end == p.end
    && c.version <= p.version
    && (c.version == p.version ==>
          && p.status == Closed && p.closeEvent == Some(c.closeEvent)
          && c.totals == ControlTotals(st.ledger, c.start, c.end))
  }

  ghost predicate Valid(st: State) {
    LockCovers(st) && forall id | id in st.certificates :: Holds(st, st.certificates[id])
  }

  /** Posting through the gate is after every closed period's end, so it leaves the totals of a current close. */
  lemma PostKeepsCertificate(st: State, c: Command, certificate: Certificate)
    requires LockCovers(st) && c.Post? && Holds(st, certificate)
    ensures Holds(Next(st, c), certificate)
  {
    hide ControlTotals;
    TotalsUnchangedIff(st.ledger, c.lines, certificate.start, certificate.end);
  }

  /** Any other command leaves the ledger and only moves a period on by raising its version. */
  lemma StepKeepsCertificate(st: State, c: Command, certificate: Certificate)
    requires LockCovers(st) && Holds(st, certificate)
    ensures Holds(Next(st, c), certificate)
  {
    hide ControlTotals, LatestClosed, Reaches, DateAllowed;
    if c.Post? { PostKeepsCertificate(st, c, certificate); }
  }

  lemma StepKeepsValid(st: State, c: Command)
    requires Valid(st) && Respects(st, c)
    ensures Valid(Next(st, c))
  {
    hide ControlTotals, LatestClosed, Reaches, DateAllowed, Holds, Step;
    StepKeepsLock(st, c);
    forall id | id in Next(st, c).certificates ensures Holds(Next(st, c), Next(st, c).certificates[id]) {
      if id in st.certificates && st.certificates[id] == Next(st, c).certificates[id] {
        StepKeepsCertificate(st, c, st.certificates[id]);
      } else {
        NewCertificateHolds(st, c, id);
      }
    }
  }

  /** A new certificate is that of a canonical close, captured at the period's new version. */
  lemma NewCertificateHolds(st: State, c: Command, id: nat)
    requires id in Next(st, c).certificates
    requires id !in st.certificates || st.certificates[id] != Next(st, c).certificates[id]
    ensures Holds(Next(st, c), Next(st, c).certificates[id])
    ensures id !in st.certificates
  {
    hide ControlTotals, LatestClosed, Reaches, DateAllowed;
  }

  lemma {:induction false} RespectfulRunIsValid(cs: seq<Command>)
    requires RespectfulRun(EMPTY, cs)
    ensures Valid(Run(EMPTY, cs))
  {
    if cs != [] {
      RespectfulRunIsValid(cs[..|cs| - 1]);
      StepKeepsValid(Run(EMPTY, cs[..|cs| - 1]), cs[|cs| - 1]);
    }
  }

  /** In every run whose manual lock changes are not set below a closed period's end, the lock date is at or after
      every closed period's end, and a certificate whose captured close is still current still equals the ledger,
      whatever was reopened and posted in between. */
  lemma ClosedCertificatesStayTrue(cs: seq<Command>, id: nat)
    requires RespectfulRun(EMPTY, cs) && id in Run(EMPTY, cs).certificates
    ensures LockCovers(Run(EMPTY, cs))
    ensures ClosedAtCapturedVersion(Run(EMPTY, cs), id) ==> CurrentDifferences(Run(EMPTY, cs), id) == {}
  {
    RespectfulRunIsValid(cs);
  }

  /** The check is exact: no differing group means that captured and current totals are the same map. */
  lemma NoDifferencesIff(captured: map<Group, Totals>, current: map<Group, Totals>)
    ensures Differences(captured, current) == {} <==> captured == current
  {
    if Differences(captured, current) == {} {
      forall g ensures (g in captured <==> g in current) && (g in captured ==> captured[g] == current[g]) {
        assert g !in Differences(captured, current);
      }
    }
  }

  /** From a state where a certificate still matches, a gated posting makes it differ exactly when it posts lines
      dated up to the certificate's end, whatever their amounts. */
  lemma PostingBreaksCertificateIff(st: State, c: Command, id: nat)
    requires c.Post? && Step(st, c).1.Ok? && id in st.certificates && CurrentDifferences(st, id) == {}
    ensures id in Next(st, c).certificates
    ensures CurrentDifferences(Next(st, c), id) == {} <==> c.lines == [] || c.date > st.certificates[id].end
  {
    hide ControlTotals;
    var certificate := st.certificates[id];
    NoDifferencesIff(certificate.totals, ControlTotals(st.ledger, certificate.start, certificate.end));
    NoDifferencesIff(certificate.totals, ControlTotals(Next(st, c).ledger, certificate.start, certificate.end));
    TotalsUnchangedIff(st.ledger, c.lines, certificate.start, certificate.end);
    if c.lines != [] { assert c.lines[0] in c.lines; }
  }

  /** Setting the lock below a closed end is accepted and opens the way for postings into an earlier open period,
      which leave the later certificate current but wrong. */
  lemma LoweredLockBreaksCertificate()
    ensures exists cs: seq<Command>, id ::
              && id in Run(EMPTY, cs).certificates && ClosedAtCapturedVersion(Run(EMPTY, cs), id)
              && CurrentDifferences(Run(EMPTY, cs), id) != {}
  {
    hide LatestClosed, Step, Next, Run, CurrentDifferences, ClosedAtCapturedVersion;
    var first, second := PeriodId(2024, 1), PeriodId(2024, 2);
    var cs := [DefinePeriod(first, 1, 10, 0), DefinePeriod(second, 11, 20, 0),
               CloseCanonical(second, 1, 7, 0, NOT_COVERED),
               SetLock(None, 1, 0, 0), Post([Posting(5, Group(0, 0, 0), 100, 0)], 5, false)];
    RunFive(cs);
    var s3 := TwoPeriodsSecondClosed(first, second);
    var s4 := Next(s3, cs[3]);
    LockRemoved(first, second, s3);
    PostingBreaksCertificateIff(s4, cs[4], 7);
    PostLeavesCloses(s4, cs[4], 7);
    assert Run(EMPTY, cs) == Next(s4, cs[4]);
  }

  /** The first period is open and the second one closed with certificate 7, over an empty ledger. */
  predicate SecondClosed(st: State, first: PeriodId, second: PeriodId) {
    && first != second && st.ledger == [] && st.certificates.Keys == {7} && st.events.Keys !! {LockChange(0)}
    && st.periods.Keys == {first, second} && st.periods[first] == Period(1, 10, Open, 1, None, None)
    && st.periods[second] == Period(11, 20, Closed, 2, Some(CanonicalClose(7)), None)
    && var c := st.certificates[7];
    && c.period == second && c.version == 2 && c.closeEvent == CanonicalClose(7)
    && c.start == 11 && c.end == 20 && c.totals == map[]
  }

  lemma TwoPeriodsSecondClosed(first: PeriodId, second: PeriodId) returns (st: State)
    requires first == PeriodId(2024, 1) && second == PeriodId(2024, 2)
    ensures st == Next(Next(Next(EMPTY, DefinePeriod(first, 1, 10, 0)), DefinePeriod(second, 11, 20, 0)),
                       CloseCanonical(second, 1, 7, 0, NOT_COVERED))
    ensures SecondClosed(st, first, second) && st.control == Some(Control(Some(20), 1))
  {
    hide LatestClosed;
    var s1 := Next(EMPTY, DefinePeriod(first, 1, 10, 0));
    assert s1.periods == map[first := Period(1, 10, Open, 1, None, None)];
    var s2 := Next(s1, DefinePeriod(second, 11, 20, 0));
    assert s2.periods[second] == Period(11, 20, Open, 1, None, None);
    st := Next(s2, CloseCanonical(second, 1, 7, 0, NOT_COVERED));
  }

  lemma LockRemoved(first: PeriodId, second: PeriodId, st: State)
    requires SecondClosed(st, first, second) && st.control == Some(Control(Some(20), 1))
    ensures var next := Next(st, SetLock(None, 1, 0, 0));
            && 7 in next.certificates && next.certificates[7].end == 20
            && ClosedAtCapturedVersion(next, 7) && CurrentDifferences(next, 7) == {}
            && DateAllowed(next, 5, false)
            && Step(next, Post([Posting(5, Group(0, 0, 0), 100, 0)], 5, false)).1.Ok?
  {
    hide LatestClosed;
    var next := Next(st, SetLock(None, 1, 0, 0));
    assert SecondClosed(next.(events := map[]), first, second);
    assert Covers(next.periods[first], 5) && !Covers(next.periods[second], 5);
  }

  lemma PostLeavesCloses(st: State, c: Command, id: nat)
    requires c.Post? && id in st.certificates && ClosedAtCapturedVersion(st, id)
    ensures id in Next(st, c).certificates && ClosedAtCapturedVersion(Next(st, c), id)
  {
    hide DateAllowed, ControlTotals;
  }

  lemma RunFive(cs: seq<Command>)
    requires |cs| == 5
    ensures Run(EMPTY, cs) == Next(Next(Next(Next(Next(EMPTY, cs[0]), cs[1]), cs[2]), cs[3]), cs[4])
  {
    hide Next;
    assert cs[..4][..3] == cs[..3] && cs[..3][..2] == cs[..2] && cs[..2][..1] == cs[..1] && cs[..1][..0] == [];
    assert Run(EMPTY, cs[..1]) == Next(EMPTY, cs[0]);
    assert Run(EMPTY, cs[..2]) == Next(Run(EMPTY, cs[..1]), cs[1]);
    assert Run(EMPTY, cs[..3]) == Next(Run(EMPTY, cs[..2]), cs[2]);
    assert Run(EMPTY, cs[..4]) == Next(Run(EMPTY, cs[..3]), cs[3]);
  }

  // ---- replays ----

  /** A mark that an accepted command leaves for good. */
  predicate Spent(st: State, c: Command) {
    match c
    case DefinePeriod(id, _, _, _) => id in st.periods && Defined(id.year, id.number) in st.events
    case BeginClosing(id, expected, _) => id in st.periods && expected < st.periods[id].version
    case ClosePeriod(id, expected, _, _) => id in st.periods && expected < st.periods[id].version
    case CloseCanonical(_, _, key, _, _) => key in st.certificates
    case ReopenPeriod(id, expected, _) => id in st.periods && expected < st.periods[id].version
    case SetLock(_, expected, _, _) => st.control.Some? && expected < st.control.value.version
    case Post(_, _, _) => false
  }

  lemma AcceptedIsSpent(st: State, c: Command)
    requires Step(st, c).1.Ok? && !c.Post?
    ensures Spent(Next(st, c), c)
  {
    hide ControlTotals, LatestClosed, Overlaps;
  }

  lemma SpentStays(st: State, c: Command, d: Command)
    requires Spent(st, c)
    ensures Spent(Next(st, d), c)
  {
    hide ControlTotals, LatestClosed, Overlaps, DateAllowed;
  }

  lemma SpentChangesNothing(st: State, c: Command)
    requires Spent(st, c)
    ensures Next(st, c) == st
  {
    hide ControlTotals, LatestClosed, Overlaps;
  }

  lemma {:induction false} SpentThroughRun(st: State, c: Command, cs: seq<Command>)
    requires Spent(st, c)
    ensures Spent(Run(st, cs), c)
  {
    hide Spent, Step, Next;
    if cs != [] {
      SpentThroughRun(st, c, cs[..|cs| - 1]);
      SpentStays(Run(st, cs[..|cs| - 1]), c, cs[|cs| - 1]);
    }
  }

  /** No fiscal command takes effect twice: once accepted, sending it again after any further commands changes
      nothing at all, whether it is answered as a replay or refused. */
  lemma NoCommandAppliesTwice(st: State, c: Command, cs: seq<Command>)
    requires Step(st, c).1.Ok? && !c.Post?
    ensures Next(Run(Next(st, c), cs), c) == Run(Next(st, c), cs)
  {
    hide Spent, Step, Next;
    AcceptedIsSpent(st, c);
    SpentThroughRun(Next(st, c), c, cs);
    SpentChangesNothing(Run(Next(st, c), cs), c);
  }
}
