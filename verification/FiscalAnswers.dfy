/** Which fiscal commands are answered, in every reachable state: those that take effect now, and repetitions of the
    period's latest effective command (src/fiscal-periods.ts). */
module FiscalAnswers {
  import opened Wrappers
  import opened FiscalPeriods
  import opened FiscalSafety
  import opened FiscalTransitions

  /** The command changes the period's row, or creates it. */
  predicate Changes(st: State, c: Command, id: PeriodId) {
    Defines(st, c, id) || StartsClosing(st, c, id) || Closes(st, c, id) || Reopens(st, c, id)
  }

  /** The command of a run that changed the period last. */
  ghost function Latest(cs: seq<Command>, id: PeriodId): Option<Command> {
    if cs == [] then None
    else if Changes(Run(EMPTY, cs[..|cs| - 1]), cs[|cs| - 1], id) then Some(cs[|cs| - 1])
    else Latest(cs[..|cs| - 1], id)
  }

  /** The command of a run that created the period. */
  ghost function Definition(cs: seq<Command>, id: PeriodId): Option<Command> {
    if cs == [] then None
    else if Defines(Run(EMPTY, cs[..|cs| - 1]), cs[|cs| - 1], id) then Some(cs[|cs| - 1])
    else Definition(cs[..|cs| - 1], id)
  }

  /** The event kept under a key is the command's. */
  predicate Keeps(st: State, key: EventKey, c: Command) {
    key in st.events && st.events[key] == Content(c)
  }

  /** What the latest effective command has left in the tables. */
  predicate LeftBy(st: State, c: Command, id: PeriodId) {
    && id in st.periods
    && var p := st.periods[id];
    match c
    case DefinePeriod(of, _, _, _) => of == id && p.status == Open && p.version == 1 && p.reopenEvent.None?
    case BeginClosing(of, expected, _) =>
      of == id && p.status == Closing && p.version == expected + 1 > 1 && Keeps(st, BeginClose(id, expected), c)
    case ClosePeriod(of, expected, _, _) =>
      && of == id && p.status == Closed && p.version == expected + 1 > 1 && p.closeEvent == Some(Close(id, expected))
      && Keeps(st, Close(id, expected), c)
    case CloseCanonical(of, expected, key, _, _) =>
      && of == id && p.status == Closed && p.version == expected + 1 > 1 && p.closeEvent == Some(CanonicalClose(key))
      && key in st.certificates && st.certificates[key].command == Content(c)
      && st.certificates[key].version == expected + 1 && st.certificates[key].closeEvent == CanonicalClose(key)
    case ReopenPeriod(of, expected, _) =>
      && of == id && p.status == Open && p.version == expected + 1 > 1 && p.reopenEvent == Some(Reopen(id, expected))
      && Keeps(st, Reopen(id, expected), c)
    case _ => false
  }

  lemma ChangeLeaves(st: State, c: Command, id: PeriodId)
    requires KeysBehind(st) && Changes(st, c, id)
    ensures LeftBy(Next(st, c), c, id)
  {
    hide ControlTotals, LatestClosed, DateAllowed, KeysBehind, Changes, Defines, StartsClosing, Closes, Reopens;
    if id in st.periods {
      NoConflicts(st, c, id);
      ChangedKind(st, c, id);
    } else {
      StepDefines(st, c, id);
      ChangedKind(st, c, id);
    }
  }

  lemma ChangedKind(st: State, c: Command, id: PeriodId)
    requires KeysBehind(st)
    ensures Defines(st, c, id) ==> c.DefinePeriod? && c.id == id && id !in st.periods
    ensures StartsClosing(st, c, id) ==>
              id in st.periods && c.BeginClosing? && c.id == id && c.expected == st.periods[id].version >= 1
              && st.periods[id].status == Open
    ensures Closes(st, c, id) ==>
              && id in st.periods && (c.ClosePeriod? || c.CloseCanonical?) && c.id == id
              && c.expected == st.periods[id].version >= 1
              && (c.ClosePeriod? ==> st.periods[id].status == Closing && c.clean)
              && (c.CloseCanonical? ==> st.periods[id].status != Closed && c.found.bookActive && c.found.ready
                                        && c.key !in st.certificates)
    ensures Reopens(st, c, id) ==>
              id in st.periods && c.ReopenPeriod? && c.id == id && c.expected == st.periods[id].version >= 1
              && st.periods[id].status == Closed
    ensures Changes(st, c, id) ==>
              Defines(st, c, id) || StartsClosing(st, c, id) || Closes(st, c, id) || Reopens(st, c, id)
  {
  }

  /** Kept events and certificates stay, whatever follows. */
  lemma EvidenceStays(st: State, c: Command)
    ensures forall key | key in st.events :: key in Next(st, c).events && Next(st, c).events[key] == st.events[key]
    ensures forall k | k in st.certificates ::
              k in Next(st, c).certificates && Next(st, c).certificates[k] == st.certificates[k]
  {
    hide ControlTotals, LatestClosed, DateAllowed, Overlaps;
  }

  lemma OtherLeaves(st: State, c: Command, id: PeriodId, last: Command)
    requires KeysBehind(st) && LeftBy(st, last, id) && !Changes(st, c, id)
    ensures LeftBy(Next(st, c), last, id)
  {
    hide Next, KeysBehind;
    EvidenceStays(st, c);
    StepChangesStatus(st, c, id);
    assert Next(st, c).periods[id] == st.periods[id];
  }

  lemma {:induction false} LatestLeft(cs: seq<Command>, id: PeriodId)
    ensures id in Run(EMPTY, cs).periods <==> Latest(cs, id).Some?
    ensures id in Run(EMPTY, cs).periods ==> LeftBy(Run(EMPTY, cs), Latest(cs, id).value, id)
  {
    hide Next, KeysBehind, LeftBy, Changes;
    if cs != [] {
      var front, c := cs[..|cs| - 1], cs[|cs| - 1];
      var st := Run(EMPTY, front);
      LatestLeft(front, id);
      RunKeepsKeysBehind(front);
      if Changes(st, c, id) {
        ChangeLeaves(st, c, id);
        LeftIsDefined(Next(st, c), c, id);
      } else if id in st.periods {
        OtherLeaves(st, c, id, Latest(front, id).value);
        LeftIsDefined(Next(st, c), Latest(front, id).value, id);
      } else {
        StepDefines(st, c, id);
        NotDefined(st, c, id);
      }
    }
  }

  lemma LeftIsDefined(st: State, c: Command, id: PeriodId)
    requires LeftBy(st, c, id)
    ensures id in st.periods
  {
  }

  lemma NotDefined(st: State, c: Command, id: PeriodId)
    requires !Changes(st, c, id)
    ensures !Defines(st, c, id)
  {
  }

  lemma {:induction false} DefinitionKept(cs: seq<Command>, id: PeriodId)
    ensures id in Run(EMPTY, cs).periods <==> Definition(cs, id).Some?
    ensures id in Run(EMPTY, cs).periods ==>
              var st, d := Run(EMPTY, cs), Definition(cs, id).value;
              && d.DefinePeriod? && d.id == id && Keeps(st, Defined(id.year, id.number), d)
              && st.periods[id].start == d.start && st.periods[id].end == d.end
  {
    hide Next, KeysBehind, Defines;
    if cs != [] {
      var front, c := cs[..|cs| - 1], cs[|cs| - 1];
      var st := Run(EMPTY, front);
      DefinitionKept(front, id);
      RunKeepsKeysBehind(front);
      EvidenceStays(st, c);
      if id in st.periods {
        PeriodsStay(st, c);
        DefinedOnce(st, c, id);
      } else {
        StepDefines(st, c, id);
        if Defines(st, c, id) { DefinitionLeaves(st, c, id); }
      }
    }
  }

  lemma DefinedOnce(st: State, c: Command, id: PeriodId)
    requires id in st.periods
    ensures !Defines(st, c, id)
  {
  }

  lemma DefinitionLeaves(st: State, c: Command, id: PeriodId)
    requires KeysBehind(st) && Defines(st, c, id)
    ensures c.DefinePeriod? && c.id == id && Keeps(Next(st, c), Defined(id.year, id.number), c)
    ensures id in Next(st, c).periods
    ensures Next(st, c).periods[id].start == c.start && Next(st, c).periods[id].end == c.end
  {
    StepDefines(st, c, id);
  }

  // ---- answers ----

  predicate Transition(c: Command) {
    c.BeginClosing? || c.ClosePeriod? || c.CloseCanonical? || c.ReopenPeriod?
  }

  lemma BeginAnswered(st: State, c: Command, last: Command)
    requires KeysBehind(st) && c.BeginClosing? && LeftBy(st, last, c.id)
    ensures Step(st, c).1.Ok? <==> StartsClosing(st, c, c.id) || Content(last) == Content(c)
  {
    hide KeysBehind;
    NoConflicts(st, c, c.id);
  }

  lemma CloseAnswered(st: State, c: Command, last: Command)
    requires KeysBehind(st) && c.ClosePeriod? && LeftBy(st, last, c.id)
    ensures Step(st, c).1.Ok? <==> Closes(st, c, c.id) || Content(last) == Content(c)
  {
    hide KeysBehind;
    NoConflicts(st, c, c.id);
  }

  /** A certificate is kept under the key of its close. */
  ghost predicate Certified(st: State) {
    forall k | k in st.certificates :: st.certificates[k].closeEvent == CanonicalClose(k)
  }

  lemma {:induction false} RunIsCertified(cs: seq<Command>)
    ensures Certified(Run(EMPTY, cs))
  {
    if cs != [] {
      RunIsCertified(cs[..|cs| - 1]);
      StepIsCertified(Run(EMPTY, cs[..|cs| - 1]), cs[|cs| - 1]);
    }
  }

  lemma StepIsCertified(st: State, c: Command)
    requires Certified(st)
    ensures Certified(Next(st, c))
  {
    hide ControlTotals, LatestClosed, DateAllowed, Overlaps;
  }

  lemma CanonicalAnswered(st: State, c: Command, last: Command)
    requires KeysBehind(st) && Certified(st) && c.CloseCanonical? && LeftBy(st, last, c.id)
    ensures Step(st, c).1.Ok? <==> Closes(st, c, c.id) || Content(last) == Content(c)
  {
    hide KeysBehind, ControlTotals;
    NoConflicts(st, c, c.id);
  }

  lemma ReopenAnswered(st: State, c: Command, last: Command)
    requires KeysBehind(st) && c.ReopenPeriod? && LeftBy(st, last, c.id)
    ensures Step(st, c).1.Ok? <==> Reopens(st, c, c.id) || Content(last) == Content(c)
  {
    hide KeysBehind, LatestClosed;
    NoConflicts(st, c, c.id);
  }

  lemma UnknownRefused(st: State, c: Command)
    requires Transition(c) && c.id !in st.periods
    ensures Step(st, c).1.Err? && !Changes(st, c, c.id)
  {
  }

  lemma ChangesByKind(st: State, c: Command, id: PeriodId)
    ensures c.BeginClosing? ==> (Changes(st, c, id) <==> StartsClosing(st, c, id))
    ensures c.ClosePeriod? || c.CloseCanonical? ==> (Changes(st, c, id) <==> Closes(st, c, id))
    ensures c.ReopenPeriod? ==> (Changes(st, c, id) <==> Reopens(st, c, id))
    ensures c.DefinePeriod? ==> (Changes(st, c, id) <==> Defines(st, c, id))
  {
  }

  /** In every reachable state a transition is accepted exactly when it takes effect now or has the content of the
      command that changed its period last: any other retry, with another actor or reason or of an older transition, is
      refused. */
  lemma TransitionsAnsweredIff(cs: seq<Command>, c: Command)
    requires Transition(c)
    ensures Step(Run(EMPTY, cs), c).1.Ok?
            <==> (Changes(Run(EMPTY, cs), c, c.id)
                  || (Latest(cs, c.id).Some? && Content(Latest(cs, c.id).value) == Content(c)))
  {
    hide Step, KeysBehind, Certified, LeftBy, Content, Changes, StartsClosing, Closes, Reopens, Run, Latest;
    var st := Run(EMPTY, cs);
    RunKeepsKeysBehind(cs);
    RunIsCertified(cs);
    LatestLeft(cs, c.id);
    ChangesByKind(st, c, c.id);
    if c.id in st.periods {
      var last := Latest(cs, c.id).value;
      match c
      case BeginClosing(_, _, _) => BeginAnswered(st, c, last);
      case ClosePeriod(_, _, _, _) => CloseAnswered(st, c, last);
      case CloseCanonical(_, _, _, _, _) => CanonicalAnswered(st, c, last);
      case ReopenPeriod(_, _, _) => ReopenAnswered(st, c, last);
    } else {
      UnknownRefused(st, c);
    }
  }

  lemma DefinitionAnswered(st: State, c: Command)
    requires KeysBehind(st) && c.DefinePeriod?
    ensures c.id !in st.periods ==> (Step(st, c).1.Ok? <==> Defines(st, c, c.id))
  {
    if c.id !in st.periods {
      assert !KeyBehind(st, Defined(c.id.year, c.id.number));
      assert Defined(c.id.year, c.id.number) !in st.events;
    }
  }

  lemma RepeatedDefinition(st: State, c: Command, d: Command)
    requires c.DefinePeriod? && d.DefinePeriod? && c.id == d.id && c.id in st.periods
    requires Keeps(st, Defined(c.id.year, c.id.number), d)
    requires st.periods[c.id].start == d.start && st.periods[c.id].end == d.end
    requires c.id.year >= 1 && 1 <= c.id.number <= 366 && d.start <= d.end
    ensures Step(st, c).1.Ok? <==> c == d
  {
  }

  lemma {:induction false} DefinitionIsValid(cs: seq<Command>, id: PeriodId)
    requires Definition(cs, id).Some?
    ensures var d := Definition(cs, id).value;
            d.DefinePeriod? && d.id == id && id.year >= 1 && 1 <= id.number <= 366 && d.start <= d.end
  {
    if cs != [] && !Defines(Run(EMPTY, cs[..|cs| - 1]), cs[|cs| - 1], id) {
      DefinitionIsValid(cs[..|cs| - 1], id);
    }
  }

  /** A definition is accepted exactly when it creates its period now or is the very definition that created it. */
  lemma DefinitionsAnsweredIff(cs: seq<Command>, c: Command)
    requires c.DefinePeriod?
    ensures Step(Run(EMPTY, cs), c).1.Ok? <==> Defines(Run(EMPTY, cs), c, c.id) || Definition(cs, c.id) == Some(c)
  {
    hide Step, KeysBehind, Defines, Run, Definition;
    var st := Run(EMPTY, cs);
    RunKeepsKeysBehind(cs);
    DefinitionKept(cs, c.id);
    if c.id in st.periods {
      DefinitionIsValid(cs, c.id);
      RepeatedDefinition(st, c, Definition(cs, c.id).value);
      DefinedOnce(st, c, c.id);
    } else {
      DefinitionAnswered(st, c);
    }
  }

  // ---- the lock date ----

  /** Some accepted manual change of the run used the request. */
  ghost predicate RequestUsed(cs: seq<Command>, request: nat) {
    exists i :: 0 <= i < |cs| && cs[i].SetLock? && cs[i].request == request && Step(Run(EMPTY, cs[..i]), cs[i]).1.Ok?
  }

  function LockVersion(st: State): nat {
    if st.control.None? then 0 else st.control.value.version
  }

  lemma {:induction false} RequestsKept(cs: seq<Command>, request: nat)
    ensures LockChange(request) in Run(EMPTY, cs).events <==> RequestUsed(cs, request)
  {
    hide Step;
    if cs != [] {
      var front, c := cs[..|cs| - 1], cs[|cs| - 1];
      RequestsKept(front, request);
      LockEvents(Run(EMPTY, front), c, request);
      assert forall i | 0 <= i < |front| :: cs[..i] == front[..i] && cs[i] == front[i];
      if RequestUsed(front, request) {
        var i :| 0 <= i < |front| && front[i].SetLock? && front[i].request == request
                 && Step(Run(EMPTY, front[..i]), front[i]).1.Ok?;
        assert cs[i].SetLock? && Step(Run(EMPTY, cs[..i]), cs[i]).1.Ok?;
      }
      assert cs[..|front|] == front && cs[|front|] == c;
    }
  }

  lemma LockEvents(st: State, c: Command, request: nat)
    ensures LockChange(request) in Next(st, c).events
            <==> LockChange(request) in st.events || (c.SetLock? && c.request == request && Step(st, c).1.Ok?)
  {
    hide ControlTotals, LatestClosed, DateAllowed, Overlaps;
  }

  /** What a command does to the lock: a version on exactly when it changes it at all, a close at the later of the lock
      and its end, a reopening at the latest end still closed, and a manual change at its own date. */
  lemma LockMoves(st: State, c: Command)
    ensures var next := Next(st, c);
            && (next.control != st.control ==> LockVersion(next) == LockVersion(st) + 1)
            && (next.control != st.control ==>
                  c.SetLock? || c.ReopenPeriod? || c.ClosePeriod? || c.CloseCanonical?)
            && ((c.ClosePeriod? || c.CloseCanonical?) && next != st ==>
                  && c.id in st.periods && LockOf(next).Some?
                  && LockOf(next).value == (if LockOf(st).Some? && LockOf(st).value > st.periods[c.id].end
                                            then LockOf(st).value else st.periods[c.id].end))
            && (c.SetLock? && next != st ==> LockOf(next) == c.lock)
  {
    hide ControlTotals, LatestClosed, DateAllowed, Overlaps;
  }

  /** A manual change's expected version lies behind the lock's version ever after. */
  ghost predicate LockKeysBehind(st: State) {
    forall r | LockChange(r) in st.events ::
      st.events[LockChange(r)].SetLock? && st.events[LockChange(r)].expected < LockVersion(st)
  }

  lemma StepKeepsLockKeys(st: State, c: Command)
    requires LockKeysBehind(st)
    ensures LockKeysBehind(Next(st, c))
  {
    hide ControlTotals, LatestClosed, DateAllowed, Overlaps;
    LockMoves(st, c);
  }

  lemma {:induction false} RunKeepsLockKeys(cs: seq<Command>)
    ensures LockKeysBehind(Run(EMPTY, cs))
  {
    hide Next;
    if cs != [] {
      RunKeepsLockKeys(cs[..|cs| - 1]);
      StepKeepsLockKeys(Run(EMPTY, cs[..|cs| - 1]), cs[|cs| - 1]);
    }
  }

  lemma SetLockAnswered(st: State, c: Command)
    requires c.SetLock? && LockKeysBehind(st)
    ensures Step(st, c).1.Ok? <==> c.expected == LockVersion(st) && LockChange(c.request) !in st.events
    ensures Step(st, c).1.Ok? ==> Next(st, c).control == Some(Control(c.lock, c.expected + 1))
  {
  }

  /** A manual lock change is accepted exactly at the lock's current version under a request that no accepted change has
      used, and then sets its own date at the next version. */
  lemma LockChangesAnsweredIff(cs: seq<Command>, c: Command)
    requires c.SetLock?
    ensures var st := Run(EMPTY, cs);
            && (Step(st, c).1.Ok? <==> c.expected == LockVersion(st) && !RequestUsed(cs, c.request))
            && (Step(st, c).1.Ok? ==> Next(st, c).control == Some(Control(c.lock, c.expected + 1)))
  {
    hide Step, LockKeysBehind, RequestUsed, Run;
    RunKeepsLockKeys(cs);
    RequestsKept(cs, c.request);
    SetLockAnswered(Run(EMPTY, cs), c);
  }

  // ---- postings ----

  /** A posting is accepted exactly when its lines carry its date, the date is after the lock, and it lies in a period
      that is open, or closing for a closing adjustment; it then adds its lines to the ledger and does nothing else. */
  lemma PostsAnsweredIff(cs: seq<Command>, c: Command)
    requires c.Post?
    ensures var st := Run(EMPTY, cs);
            && (Step(st, c).1.Ok? <==>
                  && (forall l | l in c.lines :: l.date == c.date)
                  && (LockOf(st).Some? ==> LockOf(st).value < c.date)
                  && exists id | id in st.periods ::
                       && st.periods[id].start <= c.date <= st.periods[id].end
                       && (st.periods[id].status == Open || (st.periods[id].status == Closing && c.closingAdjustment)))
            && Next(st, c) == if Step(st, c).1.Ok? then st.(ledger := st.ledger + c.lines) else st
  {
    hide Run;
    RunKeepsDisjoint(cs);
    PostAnswered(Run(EMPTY, cs), c);
  }

  lemma PostAnswered(st: State, c: Command)
    requires PeriodsDisjoint(st) && c.Post?
    ensures Step(st, c).1.Ok? <==>
              && (forall l | l in c.lines :: l.date == c.date)
              && (LockOf(st).Some? ==> LockOf(st).value < c.date)
              && exists id | id in st.periods ::
                   && st.periods[id].start <= c.date <= st.periods[id].end
                   && (st.periods[id].status == Open || (st.periods[id].status == Closing && c.closingAdjustment))
    ensures Next(st, c) == if Step(st, c).1.Ok? then st.(ledger := st.ledger + c.lines) else st
  {
  }

  /** Only postings touch the ledger, and every posting of a reachable ledger lies in a defined period. */
  lemma {:induction false} LedgerLiesInPeriods(cs: seq<Command>, p: Posting)
    requires p in Run(EMPTY, cs).ledger
    ensures exists id | id in Run(EMPTY, cs).periods ::
              Run(EMPTY, cs).periods[id].start <= p.date <= Run(EMPTY, cs).periods[id].end
  {
    hide Step, Next;
    var front, c := cs[..|cs| - 1], cs[|cs| - 1];
    var st := Run(EMPTY, front);
    PeriodsStay(st, c);
    LedgerGrows(st, c);
    if p in st.ledger {
      LedgerLiesInPeriods(front, p);
      var id :| id in st.periods && st.periods[id].start <= p.date <= st.periods[id].end;
      assert id in Next(st, c).periods;
    } else {
      PostsAnsweredIff(front, c);
    }
  }

  lemma LedgerGrows(st: State, c: Command)
    ensures Next(st, c).ledger == st.ledger + if c.Post? && Step(st, c).1.Ok? then c.lines else []
  {
    hide ControlTotals, LatestClosed, DateAllowed, Overlaps;
  }

  /** A refused command changes nothing at all. */
  lemma RefusedChangesNothing(st: State, c: Command)
    requires Step(st, c).1.Err?
    ensures Next(st, c) == st
  {
    hide ControlTotals, LatestClosed, DateAllowed, Overlaps;
  }
}
