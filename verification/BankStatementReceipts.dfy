/** Under one key a statement command and its retirement never both take effect. */
module BankStatementReceipts {
  import opened Wrappers
  import opened BankStatements
  import opened BankStatementBalance

  function KeyOf(ev: Event): nat {
    if ev.Do? then ev.command.key else ev.attempt.key
  }

  /** The event newly executes its command, or newly retires it. */
  ghost predicate TakesEffect(st: State, ev: Event) {
    match ev
    case Do(c, facts) => Execute(st, c, facts).1.Ok? && c.key !in st.receipts
    case RetireAttempt(c, o, provenance) => Retire(st, c, o, provenance).1 == Ok(NowRetired)
  }

  /** An event writes its own receipt exactly when it takes effect; otherwise it changes no table at all. */
  lemma EffectIffReceipt(st: State, ev: Event)
    ensures TakesEffect(st, ev) <==> KeyOf(ev) !in st.receipts && KeyOf(ev) in Next(st, ev).receipts
    ensures !TakesEffect(st, ev) ==> Next(st, ev) == st
    ensures forall k | k != KeyOf(ev) || k in st.receipts ::
              (k in Next(st, ev).receipts <==> k in st.receipts)
              && (k in st.receipts ==> Next(st, ev).receipts[k] == st.receipts[k])
  {
    hide EffectOf, Project, Rows;
    if ev.Do? { EffectWithinClearings(st, ev.command, ev.facts); }
  }

  /** Receipts are immutable over every run. */
  lemma {:induction false} ReceiptsLast(st: State, evs: seq<Event>, k: nat)
    requires k in st.receipts
    ensures k in Run(st, evs).receipts && Run(st, evs).receipts[k] == st.receipts[k]
    decreases evs
  {
    hide Next, TakesEffect;
    if evs != [] {
      EffectIffReceipt(st, evs[0]);
      ReceiptsLast(Next(st, evs[0]), evs[1..], k);
    }
  }

  /** How many events of a run take effect under a key. */
  ghost function Effects(st: State, evs: seq<Event>, k: nat): nat
    decreases evs
  {
    if evs == [] then 0
    else (if KeyOf(evs[0]) == k && TakesEffect(st, evs[0]) then 1 else 0) + Effects(Next(st, evs[0]), evs[1..], k)
  }

  /** In any interleaving, at most one execution or retirement takes effect under a key: none once the key has a
      receipt, and one exactly when the run leaves a receipt behind. */
  lemma {:induction false} OneEffectPerKey(st: State, evs: seq<Event>, k: nat)
    ensures Effects(st, evs, k) == if k !in st.receipts && k in Run(st, evs).receipts then 1 else 0
    decreases evs
  {
    hide Next, TakesEffect;
    if evs != [] {
      EffectIffReceipt(st, evs[0]);
      OneEffectPerKey(Next(st, evs[0]), evs[1..], k);
      if k in Next(st, evs[0]).receipts { ReceiptsLast(Next(st, evs[0]), evs[1..], k); }
      if k in st.receipts { ReceiptsLast(st, evs, k); }
    }
  }

  /** Once retired, no continuation executes a command under the key: every attempt is refused, unchanged. */
  lemma RetiredNeverExecutes(st: State, evs: seq<Event>, c: Command, facts: Facts)
    requires c.key in st.receipts && st.receipts[c.key].Retired?
    ensures var now := Run(st, evs);
            Execute(now, c, facts).0 == now && Execute(now, c, facts).1.Err?
  {
    hide Next;
    ReceiptsLast(st, evs, c.key);
  }

  ghost predicate ReceiptsOk(st: State) {
    forall k | k in st.receipts && st.receipts[k].Accepted? ::
      st.receipts[k].command.key == k && st.receipts[k].command.statement in st.statements
      && !Malformed(st.receipts[k].command) && !Contradictory(st.receipts[k].command)
  }

  lemma NextKeepsReceipts(st: State, ev: Event)
    requires ReceiptsOk(st)
    ensures ReceiptsOk(Next(st, ev))
  {
    hide EffectOf, Project, Rows, Malformed, Contradictory;
    if ev.Do? { EffectWithinClearings(st, ev.command, ev.facts); }
  }

  lemma {:induction false} RunKeepsReceipts(st: State, evs: seq<Event>)
    requires ReceiptsOk(st)
    ensures ReceiptsOk(Run(st, evs))
    decreases evs
  {
    hide Next, ReceiptsOk;
    if evs != [] {
      NextKeepsReceipts(st, evs[0]);
      RunKeepsReceipts(Next(st, evs[0]), evs[1..]);
    }
  }

  /** Once accepted, retirement by the same actor changes nothing and returns the immutable original outcome beside the
      current statement, whatever transitions followed. */
  lemma AcceptedSurvivesRetirement(before: seq<Event>, c: Command, facts: Facts, after: seq<Event>, o: Operation,
                                   provenance: bool)
    requires var st := Run(EMPTY, before); Execute(st, c, facts).1.Ok? && c.key !in st.receipts
    requires o.actor == c.actor
    ensures var st := Run(EMPTY, before);
            var now := Run(Execute(st, c, facts).0, after);
            && c.statement in now.statements
            && Retire(now, c, o, provenance)
               == (now, Ok(AlreadyRecorded(Execute(st, c, facts).1.value,
                                           Project(now.clearings, c.statement, now.statements[c.statement]))))
  {
    hide EffectOf, Project, Rows;
    var st := Run(EMPTY, before);
    assert ReceiptsOk(EMPTY);
    RunKeepsReceipts(EMPTY, before);
    EffectWithinClearings(st, c, facts);
    var next := Execute(st, c, facts).0;
    assert next == Next(st, Do(c, facts));
    NextKeepsReceipts(st, Do(c, facts));
    RunKeepsReceipts(next, after);
    ReceiptsLast(next, after, c.key);
  }

  /** Repeating an accepted command returns its original result and changes nothing, ever after. */
  lemma ReplayReturnsOriginal(st: State, c: Command, facts: Facts, after: seq<Event>, later: Facts)
    requires Execute(st, c, facts).1.Ok?
    ensures var now := Run(Execute(st, c, facts).0, after);
            Execute(now, c, later) == (now, Execute(st, c, facts).1)
  {
    hide EffectOf, Project, Rows;
    EffectWithinClearings(st, c, facts);
    ReceiptsLast(Execute(st, c, facts).0, after, c.key);
  }

  // ---- answers under a used key ----

  /** The event of a run from the empty tables that took effect under a key. */
  ghost function Effective(evs: seq<Event>, k: nat): Option<Event> {
    if evs == [] then None
    else
      var before := Effective(evs[..|evs| - 1], k);
      if before.Some? then before
      else if KeyOf(evs[|evs| - 1]) == k && TakesEffect(Run(EMPTY, evs[..|evs| - 1]), evs[|evs| - 1])
      then Some(evs[|evs| - 1])
      else None
  }

  predicate ReceiptOf(r: Receipt, ev: Event) {
    match ev
    case Do(c, _) => r.Accepted? && r.command == c
    case RetireAttempt(c, o, _) => r == Retired(c, o)
  }

  lemma EffectsReceipt(st: State, ev: Event)
    requires TakesEffect(st, ev)
    ensures KeyOf(ev) in Next(st, ev).receipts && ReceiptOf(Next(st, ev).receipts[KeyOf(ev)], ev)
  {
    hide EffectOf, Project, Rows;
    if ev.Do? { EffectWithinClearings(st, ev.command, ev.facts); }
  }

  lemma {:induction false} RunLast(st: State, evs: seq<Event>, ev: Event)
    ensures Run(st, evs + [ev]) == Next(Run(st, evs), ev)
    decreases evs
  {
    hide Next;
    if evs == [] {
      assert [] + [ev] == [ev] && Run(Next(st, ev), []) == Next(st, ev);
    } else {
      assert (evs + [ev])[1..] == evs[1..] + [ev];
      RunLast(Next(st, evs[0]), evs[1..], ev);
    }
  }

  lemma {:induction false} ReceiptsAreEffective(evs: seq<Event>, k: nat)
    ensures k in Run(EMPTY, evs).receipts <==> Effective(evs, k).Some?
    ensures Effective(evs, k).Some? ==>
              KeyOf(Effective(evs, k).value) == k && ReceiptOf(Run(EMPTY, evs).receipts[k], Effective(evs, k).value)
  {
    hide Next, TakesEffect, ReceiptOf;
    if evs != [] {
      var front, ev := evs[..|evs| - 1], evs[|evs| - 1];
      assert evs == front + [ev];
      ReceiptsAreEffective(front, k);
      RunLast(EMPTY, front, ev);
      EffectIffReceipt(Run(EMPTY, front), ev);
      if TakesEffect(Run(EMPTY, front), ev) { EffectsReceipt(Run(EMPTY, front), ev); }
    }
  }

  /** Bounded changes, a reason to reopen or cancel, and no posting both added and removed. */
  predicate WellFormed(c: Command) {
    match c.detail
    case Prepare(_, _, _, adds, removes) => |adds| <= 500 && |removes| <= 500 && forall p | p in adds :: p !in removes
    case Complete => true
    case Reopen => |c.reason| >= 10
    case Cancel => |c.reason| >= 10
  }

  lemma WellFormedIff(c: Command)
    ensures WellFormed(c) <==> !Malformed(c) && !Contradictory(c)
  {
    if c.detail.Prepare? {
      var adds, removes := c.detail.adds, c.detail.removes;
      if forall p | p in adds :: p !in removes { assert adds * removes == {}; }
      forall p | p in adds && p in removes ensures adds * removes != {} { assert p in adds * removes; }
    }
  }

  /** Under a used key a well-formed command is accepted exactly when it is the very command that was carried out under
      it: not when it was retired, and not with any other content. */
  lemma RepetitionsAnsweredIff(evs: seq<Event>, c: Command, facts: Facts)
    requires WellFormed(c) && Effective(evs, c.key).Some?
    ensures var e := Effective(evs, c.key).value;
            Execute(Run(EMPTY, evs), c, facts).1.Ok? <==> e.Do? && e.command == c
  {
    hide Run, Effective, EffectOf, Malformed, Contradictory, WellFormed;
    ReceiptsAreEffective(evs, c.key);
    WellFormedIff(c);
  }

  /** A retirement is answered exactly for a well-formed command and by its own actor: it occupies an unused key when
      the command's scope exists; it is repeated with the same command and decision; and it answers the recorded outcome
      of the very command that was carried out. */
  lemma RetirementsAnsweredIff(evs: seq<Event>, c: Command, o: Operation, provenance: bool)
    ensures var st := Run(EMPTY, evs); var e := Effective(evs, c.key); var answer := Retire(st, c, o, provenance).1;
            && (answer.Ok? ==> WellFormed(c) && o.actor == c.actor)
            && (WellFormed(c) && o.actor == c.actor ==>
                  && (answer == Ok(NowRetired) <==>
                        e.None? && if c.detail.Prepare? then provenance else c.statement in st.statements)
                  && (answer == Ok(AlreadyRetired) <==>
                        e.Some? && e.value.RetireAttempt? && e.value.attempt == c && e.value.operation == o)
                  && (answer.Ok? && answer.value.AlreadyRecorded? <==> e.Some? && e.value.Do? && e.value.command == c))
  {
    hide Run, Effective, EffectOf, Malformed, Contradictory, WellFormed, Project, ReceiptsOk;
    ReceiptsAreEffective(evs, c.key);
    WellFormedIff(c);
    RecordedStatement(evs, c.key);
  }

  lemma RecordedStatement(evs: seq<Event>, k: nat)
    ensures var st := Run(EMPTY, evs);
            k in st.receipts && st.receipts[k].Accepted? ==> st.receipts[k].command.statement in st.statements
  {
    hide Run;
    assert ReceiptsOk(EMPTY);
    RunKeepsReceipts(EMPTY, evs);
  }
}
