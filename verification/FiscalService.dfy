/** The fiscal period service over its tables, changed in place command by command. */
module FiscalService {
  import opened Wrappers
  import opened FiscalPeriods

  class Service {
    var periods: map<PeriodId, Period>
    var control: Option<Control>
    var ledger: seq<Posting>
    var certificates: map<nat, Certificate>
    var events: map<EventKey, Command>

    constructor ()
      ensures Snapshot() == EMPTY
    {
      periods, control, ledger, certificates, events := map[], None, [], map[], map[];
    }

    function Snapshot(): State
      reads this
    {
      State(periods, control, ledger, certificates, events)
    }

    /** The shared gate of every posting: it changes nothing. */
    method AssertPostingDateAllowed(date: int, closingAdjustment: bool) returns (ok: bool)
      ensures ok == DateAllowed(Snapshot(), date, closingAdjustment)
    {
      if control.Some? && control.value.lock.Some? && date <= control.value.lock.value { return false; }
      if !exists id | id in periods :: Covers(periods[id], date) { return false; }
      ok := forall id | id in periods && Covers(periods[id], date) ::
        periods[id].status == Open || (periods[id].status == Closing && closingAdjustment);
    }

    method AdvanceBookLock(end: int)
      modifies this`control
      ensures control == Advanced(old(control), end)
    {
      if control.None? {
        control := Some(Control(Some(end), 1));
      } else {
        control := Some(Control(Later(control.value.lock, end), control.value.version + 1));
      }
    }

    method RecomputeBookLock()
      modifies this`control
      ensures control == Recomputed(old(control), periods)
    {
      if control.Some? {
        var lock := MaxClosedEnd();
        control := Some(Control(lock, control.value.version + 1));
      }
    }

    /** The database's max(period_end) over closed periods. */
    method MaxClosedEnd() returns (d: Option<int>)
      ensures d == LatestClosed(periods)
    {
      LatestClosedFacts(periods);
      var left := set id | id in periods && periods[id].status == Closed;
      d := None;
      while left != {}
        invariant left <= periods.Keys && forall id | id in left :: periods[id].status == Closed
        invariant forall id | id in periods && periods[id].status == Closed && id !in left ::
                    d.Some? && periods[id].end <= d.value
        invariant d.Some? ==> exists id | id in periods :: periods[id].status == Closed && periods[id].end == d.value
        decreases |left|
      {
        var id :| id in left;
        left := left - {id};
        d := Later(d, periods[id].end);
      }
      assert d.Some? ==> IsLatestClosed(periods, d.value);
    }

    method DefineFiscalPeriod(c: Command) returns (r: Result<Outcome, Refusal>)
      requires c.DefinePeriod?
      modifies this
      ensures (Snapshot(), r) == Step(old(Snapshot()), c)
    {
      var key := Defined(c.id.year, c.id.number);
      if c.id.year < 1 || c.id.number < 1 || c.id.number > 366 || c.start > c.end { return Err(InvalidInput); }
      if key in events && events[key] != Content(c) { return Err(IdempotencyConflict); }
      if c.id !in periods {
        if Overlaps(periods, c.start, c.end) { return Err(Overlap); }
        events := events[key := Content(c)];
        periods := periods[c.id := Period(c.start, c.end, Open, 1, None, None)];
        return Ok(NowDefined);
      }
      if periods[c.id].start != c.start || periods[c.id].end != c.end { return Err(InvalidInput); }
      events := events[key := Content(c)];
      return Ok(AlreadyDefined);
    }

    method BeginFiscalPeriodClose(c: Command) returns (r: Result<Outcome, Refusal>)
      requires c.BeginClosing?
      modifies this
      ensures (Snapshot(), r) == Step(old(Snapshot()), c)
    {
      var key := BeginClose(c.id, c.expected);
      if c.expected < 1 { return Err(InvalidInput); }
      if c.id !in periods { return Err(MissingPeriod); }
      var p := periods[c.id];
      if p.status == Closing {
        if key !in events || events[key] != Content(c) { return Err(IdempotencyConflict); }
        if p.version != c.expected + 1 { return Err(StaleVersion); }
        return Ok(AlreadyClosing);
      }
      if p.status != Open { return Err(WrongStatus); }
      if p.version != c.expected { return Err(StaleVersion); }
      if key in events && events[key] != Content(c) { return Err(IdempotencyConflict); }
      events := events[key := Content(c)];
      periods := periods[c.id := p.(status := Closing, version := p.version + 1)];
      return Ok(NowClosing);
    }

    method CloseFiscalPeriod(c: Command) returns (r: Result<Outcome, Refusal>)
      requires c.ClosePeriod?
      modifies this
      ensures (Snapshot(), r) == Step(old(Snapshot()), c)
    {
      var key := Close(c.id, c.expected);
      if c.expected < 1 { return Err(InvalidInput); }
      if c.id !in periods { return Err(MissingPeriod); }
      var p := periods[c.id];
      if p.status == Closed {
        if key !in events || events[key] != Content(c) || p.closeEvent != Some(key) { return Err(IdempotencyConflict); }
        if p.version != c.expected + 1 { return Err(StaleVersion); }
        return Ok(AlreadyClosed);
      }
      if p.version != c.expected { return Err(StaleVersion); }
      if p.status != Closing { return Err(WrongStatus); }
      if !c.clean { return Err(NotReady); }
      if key in events && events[key] != Content(c) { return Err(IdempotencyConflict); }
      events := events[key := Content(c)];
      periods := periods[c.id := p.(status := Closed, version := p.version + 1, closeEvent := Some(key))];
      AdvanceBookLock(p.end);
      return Ok(NowClosed);
    }

    method CloseCanonicalFiscalPeriod(c: Command) returns (r: Result<Outcome, Refusal>)
      requires c.CloseCanonical?
      modifies this
      ensures (Snapshot(), r) == Step(old(Snapshot()), c)
    {
      var key := CanonicalClose(c.key);
      if c.expected < 1 { return Err(InvalidInput); }
      if c.id !in periods { return Err(MissingPeriod); }
      var p := periods[c.id];
      if c.key in certificates {
        var saved := certificates[c.key];
        if saved.command != Content(c) || p.status != Closed || p.version != saved.version
          || p.closeEvent != Some(saved.closeEvent) {
          return Err(IdempotencyConflict);
        }
        return Ok(AlreadyClosed);
      }
      if p.version != c.expected { return Err(StaleVersion); }
      if p.status == Closed { return Err(WrongStatus); }
      if !c.found.bookActive { return Err(MissingBook); }
      if !c.found.ready { return Err(NotReady); }
      if key in events && events[key] != Content(c) { return Err(IdempotencyConflict); }
      events := events[key := Content(c)];
      periods := periods[c.id := p.(status := Closed, version := p.version + 1, closeEvent := Some(key))];
      AdvanceBookLock(p.end);
      RecordCanonicalCloseCertificate(c.key, c.id, Content(c), key, c.found);
      return Ok(NowClosed);
    }

    /** Captures the closed period's version and the ledger's control totals. */
    method RecordCanonicalCloseCertificate(id: nat, period: PeriodId, command: Command, key: EventKey,
                                           readiness: Readiness)
      requires period in periods
      modifies this`certificates
      ensures var p := periods[period];
              certificates == old(certificates)[id := Certificate(period, command, p.version, key, p.start, p.end,
                                                                   ControlTotals(ledger, p.start, p.end), readiness)]
    {
      var p := periods[period];
      var totals: map<Group, Totals> := map[];
      for i := 0 to |ledger|
        invariant totals == ControlTotals(ledger[..i], p.start, p.end)
      {
        var l := ledger[i];
        assert ledger[..i + 1][..i] == ledger[..i];
        if l.date <= p.end {
          totals := totals[l.group := AddPosting(if l.group in totals then totals[l.group] else ZERO, l, p.start)];
        }
      }
      assert ledger[..|ledger|] == ledger;
      certificates := certificates[id := Certificate(period, command, p.version, key, p.start, p.end, totals,
                                                     readiness)];
    }

    method ReopenFiscalPeriod(c: Command) returns (r: Result<Outcome, Refusal>)
      requires c.ReopenPeriod?
      modifies this
      ensures (Snapshot(), r) == Step(old(Snapshot()), c)
    {
      hide LatestClosed;
      var key := Reopen(c.id, c.expected);
      if c.expected < 1 { return Err(InvalidInput); }
      if c.id !in periods { return Err(MissingPeriod); }
      var p := periods[c.id];
      if p.status == Open && p.reopenEvent.Some? {
        if key !in events || events[key] != Content(c) || p.reopenEvent != Some(key) {
          return Err(IdempotencyConflict);
        }
        if p.version != c.expected + 1 { return Err(StaleVersion); }
        return Ok(Reopened);
      }
      if p.version != c.expected { return Err(StaleVersion); }
      if p.status != Closed { return Err(WrongStatus); }
      if key in events && events[key] != Content(c) { return Err(IdempotencyConflict); }
      events := events[key := Content(c)];
      periods := periods[c.id := p.(status := Open, version := p.version + 1, reopenEvent := Some(key))];
      RecomputeBookLock();
      return Ok(Reopened);
    }

    method SetPostingLockDate(c: Command) returns (r: Result<Outcome, Refusal>)
      requires c.SetLock?
      modifies this
      ensures (Snapshot(), r) == Step(old(Snapshot()), c)
    {
      var key := LockChange(c.request);
      if key in events && events[key] != Content(c) { return Err(IdempotencyConflict); }
      var version := if control.Some? then control.value.version else 0;
      if version != c.expected || (control.None? && c.expected != 0) { return Err(StaleVersion); }
      events := events[key := Content(c)];
      control := Some(Control(c.lock, version + 1));
      return Ok(LockSet);
    }

    method PostJournal(c: Command) returns (r: Result<Outcome, Refusal>)
      requires c.Post?
      modifies this`ledger
      ensures (Snapshot(), r) == Step(old(Snapshot()), c)
    {
      if exists l | l in c.lines :: l.date != c.date { return Err(InvalidInput); }
      var ok := AssertPostingDateAllowed(c.date, c.closingAdjustment);
      if !ok { return Err(DateLocked); }
      ledger := ledger + c.lines;
      return Ok(Posted);
    }

    /** Captured and current totals compared group by group, with the number of groups of each. */
    method VerifyCurrentTotals(id: nat) returns (r: Result<TotalsVerification, Refusal>)
      ensures r == if id in certificates then Ok(TotalsVerified(Snapshot(), id)) else Err(MissingCertificate)
    {
      if id !in certificates { return Err(MissingCertificate); }
      var c := certificates[id];
      var current := ControlTotals(ledger, c.start, c.end);
      var differing := |Differences(c.totals, current)|;
      return Ok(TotalsVerification(differing == 0, differing, |c.totals|, |current|));
    }

    /** The totals, whether the captured close is still current, and the statements that support its banks. */
    method VerifyClosedState(id: nat, bookActive: bool) returns (r: Result<ClosedVerification, Refusal>)
      ensures r == if id !in certificates then Err(MissingCertificate)
                   else if !bookActive then Err(InactiveBook)
                   else Ok(ClosedVerified(Snapshot(), id))
    {
      if id !in certificates { return Err(MissingCertificate); }
      if !bookActive { return Err(InactiveBook); }
      var c := certificates[id];
      var closed := c.period in periods && periods[c.period].status == Closed && periods[c.period].version == c.version
        && periods[c.period].closeEvent == Some(c.closeEvent);
      var totals := VerifyCurrentTotals(id);
      var banks := ByAccount(c.readiness.banks);
      var evidence := [];
      for i := 0 to |banks|
        invariant evidence == EvidenceOf(banks[..i])
      {
        assert banks[..i + 1][..i] == banks[..i];
        if banks[i].evidence.Some? { evidence := evidence + [banks[i].evidence.value]; }
      }
      assert banks[..|banks|] == banks;
      return Ok(ClosedVerification(closed, evidence, closed && totals.value.matches, totals.value));
    }
  }
}
