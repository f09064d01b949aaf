/** When a fiscal period changes its status, in every reachable state: each change has exactly one kind of cause
    (src/fiscal-periods.ts). */
module FiscalTransitions {
  import opened Wrappers
  import opened FiscalPeriods
  import opened FiscalSafety

  // ---- keys already used lie behind the period's version ----

  /** The version at which a transition's event was made; a key can be used again only at a later one. */
  ghost predicate KeyBehind(st: State, key: EventKey) {
    match key
    case Defined(year, number) => PeriodId(year, number) in st.periods
    case BeginClose(id, version) => id in st.periods && version < st.periods[id].version
    case Close(id, version) => id in st.periods && version < st.periods[id].version
    case Reopen(id, version) => id in st.periods && version < st.periods[id].version
    case CanonicalClose(k) => k in st.certificates
    case LockChange(_) => true
  }

  ghost predicate KeysBehind(st: State) {
    && (forall key | key in st.events :: KeyBehind(st, key))
    && (forall id | id in st.periods :: st.periods[id].version >= 1)
  }

  /** What a step adds to the events, and that nothing it builds on goes back. */
  lemma StepMovesOn(st: State, c: Command)
    ensures forall key | key in st.events :: key in Next(st, c).events
    ensures forall id | id in st.periods :: id in Next(st, c).periods
              && st.periods[id].version <= Next(st, c).periods[id].version
    ensures forall id | id in Next(st, c).periods && id !in st.periods :: Next(st, c).periods[id].version == 1
    ensures st.certificates.Keys <= Next(st, c).certificates.Keys
  {
    hide ControlTotals, LatestClosed, Overlaps, DateAllowed;
  }

  lemma NewKeyIsBehind(st: State, c: Command, key: EventKey)
    requires key in Next(st, c).events && key !in st.events
    ensures KeyBehind(Next(st, c), key)
  {
    hide ControlTotals, LatestClosed, Overlaps, DateAllowed;
  }

  lemma StepKeepsKeysBehind(st: State, c: Command)
    requires KeysBehind(st)
    ensures KeysBehind(Next(st, c))
  {
    hide Step, Next;
    StepMovesOn(st, c);
    forall key | key in Next(st, c).events ensures KeyBehind(Next(st, c), key) {
      if key in st.events { assert KeyBehind(st, key); } else { NewKeyIsBehind(st, c, key); }
    }
  }

  lemma {:induction false} RunKeepsKeysBehind(cs: seq<Command>)
    ensures KeysBehind(Run(EMPTY, cs))
  {
    hide KeysBehind, Next;
    if cs == [] {
      NothingIsBehind();
    } else {
      RunKeepsKeysBehind(cs[..|cs| - 1]);
      StepKeepsKeysBehind(Run(EMPTY, cs[..|cs| - 1]), cs[|cs| - 1]);
    }
  }

  lemma NothingIsBehind()
    ensures KeysBehind(EMPTY)
  {
  }

  // ---- the causes ----

  /** A close with evidence of a closing period without drafts or unbalanced groups, or a canonical close, of a period
      not yet closed, with an active book, a ready diagnosis and an unused certificate key. */
  predicate Closes(st: State, c: Command, id: PeriodId) {
    && id in st.periods
    && ((c.ClosePeriod? && c.id == id && c.expected == st.periods[id].version
         && st.periods[id].status == Closing && c.clean)
        || (c.CloseCanonical? && c.id == id && c.expected == st.periods[id].version
            && (st.periods[id].status == Open || st.periods[id].status == Closing)
            && c.found.bookActive && c.found.ready && c.key !in st.certificates))
  }

  predicate StartsClosing(st: State, c: Command, id: PeriodId) {
    id in st.periods && c.BeginClosing? && c.id == id && c.expected == st.periods[id].version
    && st.periods[id].status == Open
  }

  predicate Reopens(st: State, c: Command, id: PeriodId) {
    id in st.periods && c.ReopenPeriod? && c.id == id && c.expected == st.periods[id].version
    && st.periods[id].status == Closed
  }

  /** A definition with a valid identity and range that meets no period defined before. */
  predicate Defines(st: State, c: Command, id: PeriodId) {
    && id !in st.periods && c.DefinePeriod? && c.id == id
    && id.year >= 1 && 1 <= id.number <= 366 && c.start <= c.end
    && forall other | other in st.periods ::
         st.periods[other].end < c.start || c.end < st.periods[other].start
  }

  /** One step of a state with its keys behind: the period moves to a new status exactly for its cause, one version on,
      and otherwise its row stays as it is. */
  lemma StepChangesStatus(st: State, c: Command, id: PeriodId)
    requires KeysBehind(st) && id in st.periods
    ensures id in Next(st, c).periods
    ensures var before, after := st.periods[id], Next(st, c).periods[id];
            && (Closes(st, c, id) <==> before.status != Closed && after.status == Closed)
            && (StartsClosing(st, c, id) <==> before.status != Closing && after.status == Closing)
            && (Reopens(st, c, id) <==> before.status != Open && after.status == Open)
            && (if before.status == after.status then after == before else after.version == before.version + 1)
  {
    hide ControlTotals, LatestClosed, Overlaps, DateAllowed, KeyBehind;
    NoConflicts(st, c, id);
  }

  /** At the period's current version no event key of a transition is taken, so no conflict can stop it. */
  lemma NoConflicts(st: State, c: Command, id: PeriodId)
    requires KeysBehind(st) && id in st.periods
    ensures var v := st.periods[id].version;
            v >= 1 && BeginClose(id, v) !in st.events && Close(id, v) !in st.events && Reopen(id, v) !in st.events
    ensures forall k | CanonicalClose(k) in st.events :: k in st.certificates
  {
    var v := st.periods[id].version;
    assert !KeyBehind(st, BeginClose(id, v)) && !KeyBehind(st, Close(id, v)) && !KeyBehind(st, Reopen(id, v));
    forall k | CanonicalClose(k) in st.events ensures k in st.certificates {
      assert KeyBehind(st, CanonicalClose(k));
    }
  }

  lemma StepDefines(st: State, c: Command, id: PeriodId)
    requires KeysBehind(st) && id !in st.periods
    ensures id in Next(st, c).periods <==> Defines(st, c, id)
    ensures Defines(st, c, id) ==> Next(st, c).periods[id] == Period(c.start, c.end, Open, 1, None, None)
  {
    hide ControlTotals, LatestClosed, DateAllowed;
    assert !KeyBehind(st, Defined(id.year, id.number));
    assert Defined(id.year, id.number) !in st.events;
  }

  /** In every reachable state and for every next command: a period turns closed exactly by a clean close of a closing
      period or a ready canonical close of an open or closing one, turns closing exactly by starting the close of an
      open one, turns open exactly by reopening a closed one, each at its expected version, and appears exactly by a
      valid definition, open. No other command touches its row. */
  lemma StatusChangesIff(cs: seq<Command>, c: Command, id: PeriodId)
    ensures var st := Run(EMPTY, cs); var next := Run(EMPTY, cs + [c]);
            && (id !in st.periods ==>
                  && (id in next.periods <==> Defines(st, c, id))
                  && (id in next.periods ==> next.periods[id] == Period(c.start, c.end, Open, 1, None, None)))
            && (id in st.periods ==>
                  && id in next.periods
                  && var before, after := st.periods[id], next.periods[id];
                     && (before.status != Closed && after.status == Closed <==> Closes(st, c, id))
                     && (before.status != Closing && after.status == Closing <==> StartsClosing(st, c, id))
                     && (before.status != Open && after.status == Open <==> Reopens(st, c, id))
                     && (if before.status == after.status then after == before
                         else after.version == before.version + 1))
  {
    hide Next, KeysBehind, Closes, StartsClosing, Reopens, Defines;
    RunKeepsKeysBehind(cs);
    assert (cs + [c])[..|cs|] == cs;
    var st := Run(EMPTY, cs);
    if id in st.periods { StepChangesStatus(st, c, id); } else { StepDefines(st, c, id); }
  }

  /** The command closes the period, and leaves it at the version. */
  predicate ClosesAt(st: State, c: Command, id: PeriodId, version: nat) {
    Closes(st, c, id) && st.periods[id].version + 1 == version
  }

  /** Every closed period of a reachable state was closed by a command of the run that met its conditions at the time,
      and its row has kept the version of that close. */
  lemma {:induction false} ClosedPeriodsWereReady(cs: seq<Command>, id: PeriodId)
    requires id in Run(EMPTY, cs).periods && Run(EMPTY, cs).periods[id].status == Closed
    ensures exists i :: 0 <= i < |cs| && ClosesAt(Run(EMPTY, cs[..i]), cs[i], id, Run(EMPTY, cs).periods[id].version)
  {
    hide Next, Defines, StartsClosing, Reopens, Closes;
    if cs != [] {
      var front, c := cs[..|cs| - 1], cs[|cs| - 1];
      assert front + [c] == cs;
      StatusChangesIff(front, c, id);
      if id in Run(EMPTY, front).periods && Run(EMPTY, front).periods[id].status == Closed {
        ClosedPeriodsWereReady(front, id);
        var version := Run(EMPTY, front).periods[id].version;
        var i :| 0 <= i < |front| && ClosesAt(Run(EMPTY, front[..i]), front[i], id, version);
        assert cs[..i] == front[..i] && cs[i] == front[i];
      } else {
        assert ClosesAt(Run(EMPTY, cs[..|cs| - 1]), cs[|cs| - 1], id, Run(EMPTY, cs).periods[id].version);
      }
    }
  }
}
