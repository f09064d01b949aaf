/** Laws of outbox runs: what holds of every run, and what holds when workers report before their leases expire. */
module OutboxLaws {
  import opened Wrappers
  import opened Orders
  import opened Outbox

  ghost function Next(rows: Rows, c: Command): Rows {
    Step(rows, c).0
  }

  ghost function Run(rows: Rows, cs: seq<Command>): Rows {
    if cs == [] then rows else Next(Run(rows, cs[..|cs| - 1]), cs[|cs| - 1])
  }

  lemma ClaimedAreClaimable(rows: Rows, s: Scope, now: int, limit: nat)
    ensures forall id | id in Claimed(rows, s, now, limit) :: id in rows && Claimable(s, now, rows[id])
    ensures |Claimed(rows, s, now, limit)| <= limit
  {
    hide StrictTotal, Claimable;
    OlderIsTotal(rows);
    var all := Listing(Claimables(rows, s, now), Older(rows));
    assert forall id | id in all :: id in Claimables(rows, s, now);
    if |all| > limit { assert forall id | id in all[..limit] :: id in all; }
  }

  /** A claim of 1 to 500 events for 5 to 3600 seconds is accepted, and takes all claimable rows if the limit allows. */
  lemma ClaimTakesUpToLimit(rows: Rows, c: Command)
    requires c.Claim?
    ensures Step(rows, c).1.Done? <==> 1 <= c.limit <= 500 && 5 <= c.seconds <= 3600
    ensures Step(rows, c).1.Done? ==>
              var all := set id | id in rows && Claimable(c.scope, c.now, rows[id]);
              |Step(rows, c).1.ids| == if |all| < c.limit then |all| else c.limit
  {
    hide Claimable, StrictTotal, Older, Listing;
    OlderIsTotal(rows);
    assert (set id | id in rows && Claimable(c.scope, c.now, rows[id])) == Claimables(rows, c.scope, c.now);
  }

  /** A claim passes over no claimable row that was created before one it takes, or at the same time with a lower id. */
  lemma ClaimTakesOldest(rows: Rows, s: Scope, now: int, limit: nat, id: nat, other: nat)
    requires id in Claimed(rows, s, now, limit) && other in rows && Claimable(s, now, rows[other])
    requires id in rows ==> rows[other].createdAt < rows[id].createdAt
                            || (rows[other].createdAt == rows[id].createdAt && other < id)
    ensures other in Claimed(rows, s, now, limit)
  {
    OlderIsTotal(rows);
    ClaimedAreClaimable(rows, s, now, limit);
    assert Older(rows)(other, id) && other in Claimables(rows, s, now);
    hide Older, StrictTotal, Claimables, Claimable, Listing;
    var all := Listing(Claimables(rows, s, now), Older(rows));
    assert Increasing(all, Older(rows)) by { ListingIncreases(Claimables(rows, s, now), Older(rows)); }
    var taken := Claimed(rows, s, now, limit);
    var i :| 0 <= i < |taken| && taken[i] == id;
    var j :| 0 <= j < |all| && all[j] == other;
    LaterIffGreater(all, Older(rows), j, i);
    assert taken[j] == other;
  }

  // ---- scopes ----

  function ScopeOf(c: Command): Scope {
    match c
    case Append(_, _, _, _, _) => Scope(None, None)
    case Claim(s, _, _, _) => s
    case MarkPublished(s, _, _) => s
    case MarkFailed(s, _, _) => s
  }

  /** A service limited to a book or a source neither returns nor changes a row of another one. */
  lemma ScopesAreIsolated(rows: Rows, c: Command, id: nat)
    requires id in rows && !c.Append?
    requires (ScopeOf(c).book.Some? && rows[id].book != ScopeOf(c).book)
             || (ScopeOf(c).source.Some? && rows[id].source != ScopeOf(c).source.value)
    ensures id in Next(rows, c) && Next(rows, c)[id] == rows[id]
    ensures Step(rows, c).1.Done? ==> id !in Step(rows, c).1.ids
  {
    hide Claimed;
    if c.Claim? && ValidClaim(c.limit, c.seconds) { ClaimedAreClaimable(rows, c.scope, c.now, c.limit); }
  }

  // ---- every run ----

  /** The parts of a row that no step changes, and all of it once it is published. */
  predicate Continues(before: Row, after: Row) {
    && after.content == before.content && after.book == before.book && after.source == before.source
    && after.createdAt == before.createdAt && before.attempts <= after.attempts
    && (before.status == Published ==> after == before)
  }

  lemma StepContinues(rows: Rows, c: Command, id: nat)
    requires id in rows
    ensures id in Next(rows, c) && Continues(rows[id], Next(rows, c)[id])
  {
    hide Claimed;
    if c.Claim? && ValidClaim(c.limit, c.seconds) { ClaimedAreClaimable(rows, c.scope, c.now, c.limit); }
  }

  /** Whatever the workers do and however late they report: a published event stays published, unchanged, and an
      event's content never changes. */
  lemma {:induction false} PublishedIsFinal(rows: Rows, cs: seq<Command>, id: nat)
    requires id in rows
    ensures id in Run(rows, cs) && Continues(rows[id], Run(rows, cs)[id])
  {
    hide Step;
    if cs != [] {
      PublishedIsFinal(rows, cs[..|cs| - 1], id);
      StepContinues(Run(rows, cs[..|cs| - 1]), cs[|cs| - 1], id);
    }
  }

  /** The first append of a run with an id. */
  ghost function FirstAppend(cs: seq<Command>, id: nat): Option<Command> {
    if cs == [] then None
    else if FirstAppend(cs[..|cs| - 1], id).Some? then FirstAppend(cs[..|cs| - 1], id)
    else if cs[|cs| - 1].Append? && cs[|cs| - 1].id == id then Some(cs[|cs| - 1])
    else None
  }

  lemma {:induction false} RowsAreFirstAppends(cs: seq<Command>, id: nat)
    ensures FirstAppend(cs, id).Some? ==> FirstAppend(cs, id).value.Append?
    ensures id in Run(map[], cs) <==> FirstAppend(cs, id).Some?
    ensures id in Run(map[], cs) ==>
              var r, first := Run(map[], cs)[id], FirstAppend(cs, id).value;
              r.content == first.content && r.book == first.book && r.source == first.source
  {
    hide Claimed;
    if cs != [] {
      RowsAreFirstAppends(cs[..|cs| - 1], id);
      if id in Run(map[], cs[..|cs| - 1]) { StepContinues(Run(map[], cs[..|cs| - 1]), cs[|cs| - 1], id); }
    }
  }

  /** After any run an append is accepted exactly when its id is new or was first appended with the same content and
      book, and changes the table only when the id is new. */
  lemma AppendsAnsweredIff(cs: seq<Command>, c: Command)
    requires c.Append?
    ensures FirstAppend(cs, c.id).Some? ==> FirstAppend(cs, c.id).value.Append?
    ensures Step(Run(map[], cs), c).1.Done? <==>
              FirstAppend(cs, c.id).Some? ==>
                FirstAppend(cs, c.id).value.content == c.content && FirstAppend(cs, c.id).value.book == c.book
    ensures FirstAppend(cs, c.id).Some? ==> Next(Run(map[], cs), c) == Run(map[], cs)
  {
    hide Run, FirstAppend;
    RowsAreFirstAppends(cs, c.id);
  }

  ghost predicate Claims(rows: Rows, c: Command, id: nat) {
    c.Claim? && Step(rows, c).1.Done? && id in Step(rows, c).1.ids
  }

  /** How often a run's claims returned an event. */
  ghost function ClaimCount(rows: Rows, cs: seq<Command>, id: nat): nat {
    if cs == [] then 0
    else ClaimCount(rows, cs[..|cs| - 1], id) + if Claims(Run(rows, cs[..|cs| - 1]), cs[|cs| - 1], id) then 1 else 0
  }

  function Attempts(rows: Rows, id: nat): nat {
    if id in rows then rows[id].attempts else 0
  }

  lemma StepCountsClaim(rows: Rows, c: Command, id: nat)
    ensures Attempts(Next(rows, c), id) == Attempts(rows, id) + if Claims(rows, c, id) then 1 else 0
  {
    hide Claimed;
    if c.Claim? && ValidClaim(c.limit, c.seconds) { ClaimedAreClaimable(rows, c.scope, c.now, c.limit); }
  }

  /** An event's attempt count is exactly the number of times it was claimed. */
  lemma {:induction false} AttemptsCountClaims(cs: seq<Command>, id: nat)
    ensures Attempts(Run(map[], cs), id) == ClaimCount(map[], cs, id)
  {
    hide Step, Claims;
    if cs != [] {
      AttemptsCountClaims(cs[..|cs| - 1], id);
      StepCountsClaim(Run(map[], cs[..|cs| - 1]), cs[|cs| - 1], id);
    }
  }

  // ---- workers ----

  /** An event a worker has claimed and not yet reported, with the end of the lease it was given. */
  datatype Hold = Hold(worker: nat, id: nat, lease: int)

  datatype World = World(rows: Rows, holds: set<Hold>)

  /** A command, the worker that gives it, and when; a failure report carries no time of its own. */
  datatype Event = Event(worker: nat, time: int, command: Command)

  ghost function Taken(w: World, e: Event): set<Hold> {
    if e.command.Claim? && Step(w.rows, e.command).1.Done?
    then set id | id in Step(w.rows, e.command).1.ids :: Hold(e.worker, id, e.command.now + e.command.seconds * 1000)
    else {}
  }

  predicate Reports(e: Event, h: Hold) {
    && e.worker == h.worker
    && ((e.command.MarkPublished? && e.command.id == h.id) || (e.command.MarkFailed? && e.command.id == h.id))
  }

  ghost function After(w: World, e: Event): World {
    World(Next(w.rows, e.command), (set h | h in w.holds && !Reports(e, h)) + Taken(w, e))
  }

  /** No lease has run out before its event was reported, and a worker reports only what it holds, within the scope
      it claimed it in. */
  ghost predicate Timely(w: World, e: Event) {
    && (forall h | h in w.holds :: e.time < h.lease)
    && (e.command.Claim? ==> e.command.now == e.time)
    && (e.command.MarkPublished? ==>
          (exists h :: h in w.holds && Reports(e, h)) && e.command.id in w.rows
            && InScope(e.command.scope, w.rows[e.command.id]))
    && (e.command.MarkFailed? ==>
          (exists h :: h in w.holds && Reports(e, h)) && e.command.id in w.rows
            && InScope(e.command.scope, w.rows[e.command.id]))
  }

  ghost function Follow(w: World, es: seq<Event>): World {
    if es == [] then w else After(Follow(w, es[..|es| - 1]), es[|es| - 1])
  }

  ghost predicate TimelyRun(w: World, es: seq<Event>) {
    es == [] || (TimelyRun(w, es[..|es| - 1]) && Timely(Follow(w, es[..|es| - 1]), es[|es| - 1]))
  }

  /** The events being processed are exactly those held, each by one worker under the row's own lease. */
  ghost predicate Exclusive(w: World) {
    && (forall h | h in w.holds ::
          h.id in w.rows && w.rows[h.id].status == Processing && w.rows[h.id].lease == Some(h.lease))
    && (forall h, k | h in w.holds && k in w.holds && h.id == k.id :: h == k)
    && (forall id | id in w.rows && w.rows[id].status == Processing :: exists h :: h in w.holds && h.id == id)
  }

  /** A claim of events that nobody holds keeps the holds exclusive. */
  lemma ClaimOfUnheld(w: World, e: Event)
    requires Exclusive(w) && e.command.Claim? && ValidClaim(e.command.limit, e.command.seconds)
    requires forall h | h in w.holds :: h.id !in Claimed(w.rows, e.command.scope, e.command.now, e.command.limit)
    ensures Exclusive(After(w, e))
  {
    hide Claimed;
    var c := e.command;
    ClaimedAreClaimable(w.rows, c.scope, c.now, c.limit);
    var ids := Claimed(w.rows, c.scope, c.now, c.limit);
    var after := After(w, e);
    assert after.rows == LeaseAll(w.rows, ids, c.now, c.seconds);
    assert after.holds == w.holds + set id | id in ids :: Hold(e.worker, id, c.now + c.seconds * 1000);
    forall id | id in after.rows && after.rows[id].status == Processing
      ensures exists h :: h in after.holds && h.id == id
    {
      if id in ids {
        assert Hold(e.worker, id, c.now + c.seconds * 1000) in after.holds;
      } else {
        var h :| h in w.holds && h.id == id;
        assert h in after.holds;
      }
    }
  }

  /** A claim that takes a held event leaves it held twice: its old lease had run out, and the new one has not. */
  lemma ClaimOfHeld(w: World, e: Event, h: Hold)
    requires Exclusive(w) && e.command.Claim? && ValidClaim(e.command.limit, e.command.seconds)
    requires h in w.holds && h.id in Claimed(w.rows, e.command.scope, e.command.now, e.command.limit)
    ensures var again := Hold(e.worker, h.id, e.command.now + e.command.seconds * 1000);
            again != h && again in After(w, e).holds && h in After(w, e).holds
    ensures h.lease <= e.command.now
    ensures h.id in After(w, e).rows
            && After(w, e).rows[h.id] == Lease(w.rows[h.id], e.command.now, e.command.seconds)
  {
    hide Claimed;
    ClaimedAreClaimable(w.rows, e.command.scope, e.command.now, e.command.limit);
  }

  /** A claim keeps the holds exclusive exactly when it takes no held event. */
  lemma ClaimKeepsExclusiveIff(w: World, e: Event)
    requires Exclusive(w) && e.command.Claim? && ValidClaim(e.command.limit, e.command.seconds)
    ensures Exclusive(After(w, e))
            <==> forall h | h in w.holds :: h.id !in Claimed(w.rows, e.command.scope, e.command.now, e.command.limit)
  {
    hide Claimed, After;
    if h :| h in w.holds && h.id in Claimed(w.rows, e.command.scope, e.command.now, e.command.limit) {
      ClaimOfHeld(w, e, h);
    } else {
      ClaimOfUnheld(w, e);
    }
  }

  /** A timely claim takes only events that nobody holds. */
  lemma ClaimIsExclusive(w: World, e: Event)
    requires Exclusive(w) && Timely(w, e) && e.command.Claim? && ValidClaim(e.command.limit, e.command.seconds)
    ensures Exclusive(After(w, e))
  {
    hide Claimed, After;
    ClaimedAreClaimable(w.rows, e.command.scope, e.command.now, e.command.limit);
    forall h | h in w.holds ensures h.id !in Claimed(w.rows, e.command.scope, e.command.now, e.command.limit) {
      assert w.rows[h.id].lease.value > e.command.now;
    }
    ClaimOfUnheld(w, e);
  }

  lemma ReportIsExclusive(w: World, e: Event)
    requires Exclusive(w) && Timely(w, e) && (e.command.MarkPublished? || e.command.MarkFailed?)
    ensures Exclusive(After(w, e)) && Step(w.rows, e.command).1.Done?
  {
    var held :| held in w.holds && Reports(e, held);
    var after := After(w, e);
    assert after.holds == w.holds - {held};
    assert after.rows == w.rows[held.id := after.rows[held.id]];
    forall id | id in after.rows && after.rows[id].status == Processing
      ensures exists h :: h in after.holds && h.id == id
    {
      var h :| h in w.holds && h.id == id;
      assert h in after.holds;
    }
  }

  lemma StepIsExclusive(w: World, e: Event)
    requires Exclusive(w) && Timely(w, e)
    ensures Exclusive(After(w, e))
    ensures e.command.MarkPublished? || e.command.MarkFailed? ==> Step(w.rows, e.command).1.Done?
  {
    hide Claimed, Exclusive, Timely;
    if e.command.Claim? && ValidClaim(e.command.limit, e.command.seconds) {
      ClaimIsExclusive(w, e);
    } else if e.command.MarkPublished? || e.command.MarkFailed? {
      ReportIsExclusive(w, e);
    } else {
      OtherIsExclusive(w, e);
    }
  }

  lemma OtherIsExclusive(w: World, e: Event)
    requires Exclusive(w) && !e.command.MarkPublished? && !e.command.MarkFailed?
    requires e.command.Claim? ==> !ValidClaim(e.command.limit, e.command.seconds)
    ensures Exclusive(After(w, e))
  {
    assert After(w, e).holds == w.holds;
    assert forall id | id in After(w, e).rows && After(w, e).rows[id].status == Processing ::
             id in w.rows && w.rows[id] == After(w, e).rows[id];
  }

  /** When workers report before their leases expire, in any interleaving: no two workers hold the same event, the
      events in process are exactly those held, and every report finds its event still in process. */
  lemma {:induction false} TimelyWorkersNeverShare(es: seq<Event>)
    requires TimelyRun(World(map[], {}), es)
    ensures Exclusive(Follow(World(map[], {}), es))
    ensures forall e | Timely(Follow(World(map[], {}), es), e) && (e.command.MarkPublished? || e.command.MarkFailed?) ::
              Step(Follow(World(map[], {}), es).rows, e.command).1.Done?
  {
    hide Timely, Step, After;
    var w := World(map[], {});
    if es != [] {
      TimelyWorkersNeverShare(es[..|es| - 1]);
      StepIsExclusive(Follow(w, es[..|es| - 1]), es[|es| - 1]);
    }
    forall e | Timely(Follow(w, es), e) && (e.command.MarkPublished? || e.command.MarkFailed?)
      ensures Step(Follow(w, es).rows, e.command).1.Done?
    {
      StepIsExclusive(Follow(w, es), e);
    }
  }

  // ---- when a held event can be taken ----

  /** Claims of one scope at one time. */
  ghost predicate ClaimsAt(s: Scope, t: int, cs: seq<Command>) {
    forall c | c in cs :: c.Claim? && c.scope == s && c.now == t
  }

  /** Some number of claims of the scope at the time is followed by one that returns the event. */
  ghost predicate CanBeTaken(rows: Rows, s: Scope, t: int, id: nat) {
    exists cs: seq<Command>, c :: ClaimsAt(s, t, cs + [c]) && Claims(Run(rows, cs), c, id)
  }

  /** Claims leave a row alone that is not claimable at their time. */
  lemma {:induction false} UnclaimableStays(rows: Rows, s: Scope, t: int, id: nat, cs: seq<Command>)
    requires ClaimsAt(s, t, cs) && id in rows && !Claimable(s, t, rows[id])
    ensures id in Run(rows, cs) && Run(rows, cs)[id] == rows[id]
  {
    hide Claimed, Claimable;
    if cs != [] {
      var front, c := cs[..|cs| - 1], cs[|cs| - 1];
      assert c in cs && forall x | x in front :: x in cs;
      UnclaimableStays(rows, s, t, id, front);
      if ValidClaim(c.limit, c.seconds) { ClaimedAreClaimable(Run(rows, front), s, t, c.limit); }
    }
  }

  lemma {:induction false} RunFrom(rows: Rows, c: Command, cs: seq<Command>)
    ensures Run(rows, [c] + cs) == Run(Next(rows, c), cs)
  {
    hide Next;
    if cs == [] {
      assert [c] + cs == [c] && [c][..0] == [];
    } else {
      RunFrom(rows, c, cs[..|cs| - 1]);
      assert ([c] + cs)[..|cs|] == [c] + cs[..|cs| - 1];
    }
  }

  /** What one claim takes is no longer claimable at that time, and everything else is as it was. */
  lemma ClaimablesShrink(rows: Rows, s: Scope, t: int)
    requires Claimables(rows, s, t) != {}
    ensures Claimables(Next(rows, Claim(s, t, 500, 5)), s, t) < Claimables(rows, s, t)
    ensures forall id | id in Claimables(rows, s, t) && id !in Claimed(rows, s, t, 500) ::
              id in Claimables(Next(rows, Claim(s, t, 500, 5)), s, t)
  {
    hide Claimed;
    ClaimedAreClaimable(rows, s, t, 500);
    ClaimTakesSome(rows, s, t);
    var id :| id in Claimed(rows, s, t, 500);
    assert id in Claimables(rows, s, t) && id !in Claimables(Next(rows, Claim(s, t, 500, 5)), s, t);
  }

  lemma ClaimTakesSome(rows: Rows, s: Scope, t: int)
    requires Claimables(rows, s, t) != {}
    ensures exists id :: id in Claimed(rows, s, t, 500)
  {
    hide Claimables, Older, StrictTotal, Listing;
    OlderIsTotal(rows);
    ListingEmpty(Claimables(rows, s, t), Older(rows));
    assert Claimed(rows, s, t, 500)[0] in Claimed(rows, s, t, 500);
  }

  lemma {:induction false} ClaimableIsTaken(rows: Rows, s: Scope, t: int, id: nat)
    requires id in Claimables(rows, s, t)
    ensures CanBeTaken(rows, s, t, id)
    decreases Claimables(rows, s, t)
  {
    hide Claimables, Claimed;
    var c := Claim(s, t, 500, 5);
    if id in Claimed(rows, s, t, 500) {
      assert ClaimsAt(s, t, [] + [c]) && Claims(Run(rows, []), c, id);
    } else {
      ClaimablesShrink(rows, s, t);
      ClaimableIsTaken(Next(rows, c), s, t, id);
      var cs: seq<Command>, d :| ClaimsAt(s, t, cs + [d]) && Claims(Run(Next(rows, c), cs), d, id);
      RunFrom(rows, c, cs);
      assert forall x | x in ([c] + cs) + [d] :: x == c || x in cs + [d];
      assert ClaimsAt(s, t, ([c] + cs) + [d]) && Claims(Run(rows, [c] + cs), d, id);
    }
  }

  /** A row, whoever holds it and whatever else is in the table, can be taken by claims at a time exactly when it is
      claimable at that time; for a processing row in scope, when it is available and its lease has run out. */
  lemma CanBeTakenIff(rows: Rows, s: Scope, t: int, id: nat)
    requires id in rows
    ensures CanBeTaken(rows, s, t, id) <==> Claimable(s, t, rows[id])
    ensures InScope(s, rows[id]) && rows[id].status == Processing && rows[id].lease.Some? ==>
              (CanBeTaken(rows, s, t, id) <==> rows[id].availableAt <= t && rows[id].lease.value <= t)
  {
    if Claimable(s, t, rows[id]) {
      ClaimableIsTaken(rows, s, t, id);
    } else {
      hide Claimed, Claimable;
      forall cs: seq<Command>, c | ClaimsAt(s, t, cs + [c]) ensures !Claims(Run(rows, cs), c, id) {
        assert c in cs + [c] && forall x | x in cs :: x in cs + [c];
        UnclaimableStays(rows, s, t, id, cs);
        ClaimedAreClaimable(Run(rows, cs), s, t, if c.limit >= 0 then c.limit else 0);
      }
    }
  }

  // ---- what a report leaves ----

  /** A failed event is not published, and claims can take it again exactly from its retry time on; a terminal one not
      before the last instant of the year 9999. */
  lemma FailedIsRetried(rows: Rows, scope: Scope, id: nat, retryAt: int, s: Scope, t: int)
    requires Step(rows, MarkFailed(scope, id, retryAt)).1.Done?
    ensures var after := Next(rows, MarkFailed(scope, id, retryAt));
            && id in rows && id in after && after[id].status != Published
            && (InScope(s, after[id]) <==> InScope(s, rows[id]))
            && (CanBeTaken(after, s, t, id) <==> InScope(s, rows[id]) && retryAt <= t)
            && (retryAt == NEVER && t < 253402300799999 ==> !CanBeTaken(after, s, t, id))
  {
    hide CanBeTaken;
    CanBeTakenIff(Next(rows, MarkFailed(scope, id, retryAt)), s, t, id);
  }

  /** A published event can never be taken again, whatever commands follow. */
  lemma PublishedIsNotTaken(rows: Rows, scope: Scope, now: int, id: nat, cs: seq<Command>, s: Scope, t: int)
    requires Step(rows, MarkPublished(scope, now, id)).1.Done?
    ensures var after := Run(Next(rows, MarkPublished(scope, now, id)), cs);
            && id in after && after[id].status == Published && after[id].publishedAt == Some(now)
            && !CanBeTaken(after, s, t, id)
  {
    hide CanBeTaken, Run;
    var next := Next(rows, MarkPublished(scope, now, id));
    PublishedIsFinal(next, cs, id);
    CanBeTakenIff(Run(next, cs), s, t, id);
  }

  /** A new event can be taken exactly from its time on, and a claimed one exactly when it is available and the lease
      given with the claim has run out. */
  lemma AppendedIsTaken(rows: Rows, c: Command, s: Scope, t: int)
    requires c.Append? && c.id !in rows
    ensures c.id in Next(rows, c) && Next(rows, c)[c.id].content == c.content
    ensures CanBeTaken(Next(rows, c), s, t, c.id)
            <==> (s.book == None || s.book == c.book) && (s.source == None || s.source == Some(c.source)) && c.at <= t
  {
    hide CanBeTaken;
    CanBeTakenIff(Next(rows, c), s, t, c.id);
  }

  lemma ClaimedIsLeased(rows: Rows, c: Command, id: nat, s: Scope, t: int)
    requires Claims(rows, c, id)
    ensures id in rows && id in Next(rows, c)
    ensures CanBeTaken(Next(rows, c), s, t, id)
            <==> InScope(s, rows[id]) && rows[id].availableAt <= t && c.now + c.seconds * 1000 <= t
  {
    hide CanBeTaken, Claimed;
    ClaimedAreClaimable(rows, c.scope, c.now, c.limit);
    CanBeTakenIff(Next(rows, c), s, t, id);
  }

  // ---- a late report ----

  /** Once another claim has taken a held event, the first worker's report is still accepted, settles the other
      worker's claim, and makes every further report fail. */
  lemma LateReportSettlesAnothersClaim(w: World, e: Event, h: Hold, late: Event, further: Event)
    requires Exclusive(w) && e.command.Claim? && ValidClaim(e.command.limit, e.command.seconds)
    requires h in w.holds && h.id in Claimed(w.rows, e.command.scope, e.command.now, e.command.limit)
    requires Reports(late, h) && InScope(late.command.scope, w.rows[h.id])
    requires further.command.MarkPublished? || further.command.MarkFailed?
    requires further.command.id == h.id
    ensures var taken := After(w, e);
            && h in taken.holds && Hold(e.worker, h.id, e.command.now + e.command.seconds * 1000) in taken.holds
            && Step(taken.rows, late.command).1.Done?
            && Step(Next(taken.rows, late.command), further.command).1 == Refused(NotProcessing)
  {
    hide Claimed, After;
    ClaimOfHeld(w, e, h);
  }
}
