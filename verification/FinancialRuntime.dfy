/** One bounded run of the outbox worker (src/financial-runtime.ts). Handlers, the retry policy and the clock are
    parameters, and so are the changes that other workers make between its calls. */
module FinancialRuntime {
  import opened Wrappers
  import opened Orders
  import opened Outbox
  import opened OutboxLaws

  datatype Report = Report(claimed: nat, published: nat, failed: nat, ids: seq<nat>)

  function Power2(n: nat): nat {
    if n == 0 then 1 else 2 * Power2(n - 1)
  }

  function DefaultRetryDelaySeconds(attempts: nat): nat {
    var exponent := if attempts <= 1 then 0 else if attempts - 1 > 10 then 10 else attempts - 1;
    if 5 * Power2(exponent) > 3600 then 3600 else 5 * Power2(exponent)
  }

  predicate ValidDelay(d: int) {
    1 <= d <= 86400
  }

  lemma {:induction false} PowerGrows(m: nat, n: nat)
    requires m <= n
    ensures 1 <= Power2(m) <= Power2(n)
  {
    if n > 0 { PowerGrows(if m > 0 then m - 1 else 0, n - 1); }
  }

  lemma TenDoublings()
    ensures Power2(9) == 512 && Power2(10) == 1024
  {
    assert Power2(5) == 32;
    assert Power2(8) == 256;
  }

  /** The default delay starts at five seconds, doubles with every attempt, and is an hour from the eleventh on. */
  lemma DefaultDelayDoubles(attempts: nat)
    requires attempts >= 1
    ensures ValidDelay(DefaultRetryDelaySeconds(attempts)) && DefaultRetryDelaySeconds(1) == 5
    ensures DefaultRetryDelaySeconds(attempts + 1)
            == if 2 * DefaultRetryDelaySeconds(attempts) > 3600 then 3600 else 2 * DefaultRetryDelaySeconds(attempts)
    ensures DefaultRetryDelaySeconds(attempts) == 3600 <==> attempts >= 11
  {
    TenDoublings();
    if attempts <= 10 { PowerGrows(attempts - 1, 9); }
  }

  /** A row after its event's one report. */
  function Reported(r: Row, handled: bool, time: int, seconds: int): Row {
    if handled then PublishedRow(r, time) else FailedRow(r, time + seconds * 1000)
  }

  /** The rows after the first events of a batch are reported, with nobody else at work. */
  function Settled(rows: Rows, ids: seq<nat>, handles: nat -> bool, delay: nat -> int, clock: nat -> int): Rows {
    if ids == [] then rows
    else
      var before := Settled(rows, ids[..|ids| - 1], handles, delay, clock);
      var id := ids[|ids| - 1];
      if id !in before then before
      else before[id := Reported(before[id], handles(id), clock(|ids| - 1), delay(Attempts(rows, id)))]
  }

  lemma {:induction false} SettledLeavesOthers(rows: Rows, ids: seq<nat>, handles: nat -> bool, delay: nat -> int,
                                               clock: nat -> int, id: nat)
    requires id !in ids
    ensures var after := Settled(rows, ids, handles, delay, clock);
            (id in after <==> id in rows) && (id in rows ==> after[id] == rows[id])
  {
    if ids != [] {
      assert id !in ids[..|ids| - 1];
      SettledLeavesOthers(rows, ids[..|ids| - 1], handles, delay, clock, id);
    }
  }

  lemma DistinctFront(ids: seq<nat>)
    requires Distinct(ids) && ids != []
    ensures Distinct(ids[..|ids| - 1]) && ids[|ids| - 1] !in ids[..|ids| - 1]
  {
  }

  /** Every event of a settled batch is published when its handler succeeded, and else failed until its own retry
      time; every other row is as it was. */
  lemma {:induction false} SettledRows(rows: Rows, ids: seq<nat>, handles: nat -> bool, delay: nat -> int,
                                       clock: nat -> int)
    requires Distinct(ids) && forall id | id in ids :: id in rows
    ensures var after := Settled(rows, ids, handles, delay, clock);
            && after.Keys == rows.Keys
            && (forall id | id in rows && id !in ids :: after[id] == rows[id])
            && forall i: nat | i < |ids| ::
                 after[ids[i]] == Reported(rows[ids[i]], handles(ids[i]), clock(i), delay(rows[ids[i]].attempts))
  {
    hide Reported, Distinct;
    if ids != [] {
      var front, id := ids[..|ids| - 1], ids[|ids| - 1];
      assert forall x | x in front :: x in ids;
      DistinctFront(ids);
      SettledRows(rows, front, handles, delay, clock);
      SettledLeavesOthers(rows, front, handles, delay, clock, id);
      assert forall x :: x in ids <==> x in front || x == id;
    }
  }

  /** The claims of a scope that includes the event can take it again: never once its handler succeeded, and otherwise
      exactly from the time of its failure plus its own retry delay. */
  ghost predicate Retries(after: Rows, s: Scope, id: nat, handled: bool, time: int, seconds: int) {
    && id in after
    && (after[id].status == Published <==> handled)
    && forall t :: CanBeTaken(after, s, t, id) <==> !handled && time + seconds * 1000 <= t
  }

  lemma ReportedRetries(after: Rows, s: Scope, id: nat, before: Row, handled: bool, time: int, seconds: int)
    requires id in after && after[id] == Reported(before, handled, time, seconds) && InScope(s, before)
    ensures Retries(after, s, id, handled, time, seconds)
  {
    forall t ensures CanBeTaken(after, s, t, id) <==> !handled && time + seconds * 1000 <= t {
      hide CanBeTaken;
      CanBeTakenIff(after, s, t, id);
    }
  }

  /** With nobody else at work, exactly the failing events of a batch become claimable again, each from its own retry
      time on. */
  lemma SettledRetries(leased: Rows, s: Scope, ids: seq<nat>, handles: nat -> bool, delay: nat -> int,
                       clock: nat -> int)
    requires Distinct(ids) && forall id | id in ids :: id in leased && InScope(s, leased[id])
    ensures forall i: nat | i < |ids| ::
              Retries(Settled(leased, ids, handles, delay, clock), s, ids[i], handles(ids[i]), clock(i),
                      delay(Attempts(leased, ids[i])))
  {
    hide Reported, Retries, Distinct;
    var after := Settled(leased, ids, handles, delay, clock);
    SettledRows(leased, ids, handles, delay, clock);
    forall i: nat | i < |ids|
      ensures Retries(after, s, ids[i], handles(ids[i]), clock(i), delay(Attempts(leased, ids[i])))
    {
      assert ids[i] in ids;
      ReportedRetries(after, s, ids[i], leased[ids[i]], handles(ids[i]), clock(i), delay(Attempts(leased, ids[i])));
    }
  }

  function CountHandled(ids: seq<nat>, handles: nat -> bool): nat {
    if ids == [] then 0 else CountHandled(ids[..|ids| - 1], handles) + if handles(ids[|ids| - 1]) then 1 else 0
  }

  lemma ClaimedDistinct(rows: Rows, s: Scope, now: int, limit: nat)
    ensures Distinct(Claimed(rows, s, now, limit))
  {
    hide Older, Claimables, Listing;
    OlderIsTotal(rows);
    var all := Listing(Claimables(rows, s, now), Older(rows));
    ListingIncreases(Claimables(rows, s, now), Older(rows));
    forall i, j | 0 <= i < j < |all| ensures all[i] != all[j] { assert Older(rows)(all[i], all[j]); }
  }

  /** Delivers one event: publishes it when its handler succeeded, and otherwise, as when publishing is refused,
      schedules its retry. */
  method Deliver(service: Service, s: Scope, id: nat, handled: bool, seconds: int, time: int)
    returns (published: Result<bool, Refusal>)
    modifies service
    ensures var before := old(service.rows);
            && (published == Ok(true) <==> handled && Reportable(before, s, id))
            && (published == Ok(false) <==> !handled && Reportable(before, s, id) && ValidDelay(seconds))
            && (published.Ok? ==>
                  && Reportable(before, s, id)
                  && service.rows == before[id := Reported(before[id], handled, time, seconds)])
            && (published.Err? ==> service.rows == before)
  {
    if handled {
      var accepted := service.MarkEventPublished(s, time, id);
      if accepted.Ok? { return Ok(true); }
    }
    if !ValidDelay(seconds) { return Err(InvalidInput); }
    var accepted := service.MarkEventFailed(s, id, time, Some(time + seconds * 1000), false);
    if accepted.Err? { return Err(accepted.error); }
    return Ok(false);
  }

  /** A run that completes has reported every event it claimed exactly once, whatever the other workers did between
      its calls. With nobody else at work it completes exactly when the retry policy's delays are valid, and leaves
      exactly the settled rows, of which the failing events alone become claimable again. */
  method RunOnce(service: Service, s: Scope, now: int, limit: int, seconds: int,
                 handles: nat -> bool, delay: nat -> int, clock: nat -> int, others: (nat, Rows) -> Rows)
    returns (r: Result<Report, Refusal>)
    modifies service
    ensures r.Ok? ==> r.value.claimed == |r.value.ids| == r.value.published + r.value.failed
    ensures ValidClaim(limit, seconds) && (forall i, rows :: others(i, rows) == rows) ==>
              var ids := Claimed(old(service.rows), s, now, limit);
              var leased := LeaseAll(old(service.rows), ids, now, seconds);
              && (r.Ok? <==> forall id | id in ids :: handles(id) || 1 <= delay(Attempts(leased, id)) <= 86400)
              && (r.Ok? ==> r.value.ids == ids && r.value.published == CountHandled(ids, handles)
                            && service.rows == Settled(leased, ids, handles, delay, clock)
                            && forall i: nat | i < |ids| ::
                                 Retries(service.rows, s, ids[i], handles(ids[i]), clock(i),
                                         delay(Attempts(leased, ids[i]))))
  {
    hide Retries, Claimed, LeaseAll, Reported, Distinct, Claimables, Settled, CountHandled, Attempts, Reportable;
    ghost var quiet := forall i, rows :: others(i, rows) == rows;
    ghost var before := service.rows;
    var events := service.ClaimEvents(s, now, limit, seconds);
    if events.Err? { return Err(events.error); }
    var ids := events.value;
    ghost var leased := LeaseAll(before, ids, now, seconds);
    var claimed := service.rows;
    LeasedBatch(before, s, now, limit, seconds);
    var published, failed := 0, 0;
    NothingSettled(leased, ids, handles, delay, clock);
    for i := 0 to |ids|
      invariant quiet ==> published == CountHandled(ids[..i], handles)
      invariant published + failed == i
      invariant quiet ==> service.rows == Settled(leased, ids[..i], handles, delay, clock)
      invariant quiet ==> forall j | 0 <= j < i :: handles(ids[j]) || ValidDelay(delay(Attempts(leased, ids[j])))
    {
      var id := ids[i];
      SettleStep(leased, s, ids, handles, delay, clock, i);
      service.rows := others(i, service.rows);
      var settled := Deliver(service, s, id, handles(id), delay(Attempts(claimed, id)), clock(i));
      if settled.Err? { return Err(settled.error); }
      if settled.value { published := published + 1; } else { failed := failed + 1; }
    }
    assert ids[..|ids|] == ids;
    SettledRetries(leased, s, ids, handles, delay, clock);
    return Ok(Report(|ids|, published, failed, ids));
  }

  /** With nobody else at work, each event is still in process when its turn comes. */
  lemma SettleStep(leased: Rows, s: Scope, ids: seq<nat>, handles: nat -> bool, delay: nat -> int, clock: nat -> int,
                   i: nat)
    requires Distinct(ids) && i < |ids|
    requires forall id | id in ids :: id in leased && InScope(s, leased[id]) && leased[id].status == Processing
    ensures var before := Settled(leased, ids[..i], handles, delay, clock);
            var id := ids[i];
            && Reportable(before, s, id)
            && Settled(leased, ids[..i + 1], handles, delay, clock)
               == before[id := Reported(before[id], handles(id), clock(i), delay(Attempts(leased, id)))]
            && CountHandled(ids[..i + 1], handles) == CountHandled(ids[..i], handles) + if handles(id) then 1 else 0
  {
    assert ids[..i + 1][..i] == ids[..i];
    assert ids[i] !in ids[..i];
    SettledLeavesOthers(leased, ids[..i], handles, delay, clock, ids[i]);
  }

  lemma NothingSettled(leased: Rows, ids: seq<nat>, handles: nat -> bool, delay: nat -> int, clock: nat -> int)
    ensures Settled(leased, ids[..0], handles, delay, clock) == leased && CountHandled(ids[..0], handles) == 0
  {
  }

  lemma LeasedBatch(rows: Rows, s: Scope, now: int, limit: int, seconds: int)
    requires ValidClaim(limit, seconds)
    ensures var ids := Claimed(rows, s, now, limit); var leased := LeaseAll(rows, ids, now, seconds);
            && Distinct(ids)
            && forall id | id in ids :: id in leased && InScope(s, leased[id]) && leased[id].status == Processing
  {
    hide Claimed;
    ClaimedDistinct(rows, s, now, limit);
    ClaimedAreClaimable(rows, s, now, limit);
  }
}
