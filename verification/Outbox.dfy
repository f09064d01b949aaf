/** The transactional outbox: keyed append, claims under a lease, and reports (src/financial-outbox.ts). Times are
    ordered integers in milliseconds. */
module Outbox {
  import opened Wrappers
  import opened Orders

  datatype Status = Pending | Processing | Failed | Published

  /** `content` stands for the event's type, aggregate and payload text; the id is a digest of the row's key. */
  datatype Row = Row(
    content: nat, book: Option<nat>, source: nat, status: Status, attempts: nat,
    availableAt: int, lease: Option<int>, createdAt: int, publishedAt: Option<int>)

  type Rows = map<nat, Row>

  /** A service may be limited to a book or a source. */
  datatype Scope = Scope(book: Option<nat>, source: Option<nat>)

  datatype Refusal = InvalidInput | IdempotencyConflict | NotProcessing

  /** The end of the year 9999, from which a terminally failed event is never available before. */
  const NEVER := 253402300799999

  predicate InScope(s: Scope, r: Row) {
    && (s.book.None? || r.book == s.book)
    && (s.source.None? || s.source.value == r.source)
  }

  predicate Claimable(s: Scope, now: int, r: Row) {
    && InScope(s, r) && r.availableAt <= now
    && (r.status == Pending || r.status == Failed
        || (r.status == Processing && r.lease.Some? && r.lease.value <= now))
  }

  function Claimables(rows: Rows, s: Scope, now: int): set<nat> {
    set id | id in rows && Claimable(s, now, rows[id])
  }

  function Created(rows: Rows, id: nat): int {
    if id in rows then rows[id].createdAt else 0
  }

  /** Oldest first, then by id. */
  function Older(rows: Rows): (nat, nat) -> bool {
    (a: nat, b: nat) => Created(rows, a) < Created(rows, b) || (Created(rows, a) == Created(rows, b) && a < b)
  }

  lemma OlderIsTotal(rows: Rows)
    ensures StrictTotal(Older(rows))
  {
  }

  /** The oldest claimable rows up to the limit. */
  ghost function Claimed(rows: Rows, s: Scope, now: int, limit: nat): seq<nat> {
    OlderIsTotal(rows);
    var all := Listing(Claimables(rows, s, now), Older(rows));
    if |all| <= limit then all else all[..limit]
  }

  function Lease(r: Row, now: int, seconds: int): Row {
    r.(status := Processing, attempts := r.attempts + 1, lease := Some(now + seconds * 1000))
  }

  function LeaseAll(rows: Rows, ids: seq<nat>, now: int, seconds: int): Rows {
    map id | id in rows :: if id in ids then Lease(rows[id], now, seconds) else rows[id]
  }

  predicate ValidClaim(limit: int, seconds: int) {
    1 <= limit <= 500 && 5 <= seconds <= 3600
  }

  predicate Reportable(rows: Rows, s: Scope, id: nat) {
    id in rows && InScope(s, rows[id]) && rows[id].status == Processing
  }

  function PublishedRow(r: Row, now: int): Row {
    r.(status := Published, publishedAt := Some(now), lease := None)
  }

  function FailedRow(r: Row, retryAt: int): Row {
    r.(status := Failed, availableAt := retryAt, lease := None)
  }

  function Appended(content: nat, book: Option<nat>, source: nat, availableAt: int): Row {
    Row(content, book, source, Pending, 0, availableAt, None, availableAt, None)
  }

  /** Every step of the outbox. A failure's retry time is `NEVER` when it is terminal. */
  datatype Command =
    | Append(id: nat, content: nat, book: Option<nat>, source: nat, at: int)
    | Claim(scope: Scope, now: int, limit: int, seconds: int)
    | MarkPublished(scope: Scope, now: int, id: nat)
    | MarkFailed(scope: Scope, id: nat, retryAt: int)

  /** The refusal, if any, and the ids a claim returned. */
  datatype Outcome = Done(ids: seq<nat>) | Refused(reason: Refusal)

  ghost function Step(rows: Rows, c: Command): (Rows, Outcome) {
    match c
    case Append(id, content, book, source, at) =>
      if id !in rows then (rows[id := Appended(content, book, source, at)], Done([]))
      else if rows[id].content != content || rows[id].book != book then (rows, Refused(IdempotencyConflict))
      else (rows, Done([]))
    case Claim(s, now, limit, seconds) =>
      if !ValidClaim(limit, seconds) then (rows, Refused(InvalidInput))
      else
        var ids := Claimed(rows, s, now, limit);
        (LeaseAll(rows, ids, now, seconds), Done(ids))
    case MarkPublished(s, now, id) =>
      if Reportable(rows, s, id) then (rows[id := PublishedRow(rows[id], now)], Done([]))
      else (rows, Refused(NotProcessing))
    case MarkFailed(s, id, retryAt) =>
      if Reportable(rows, s, id) then (rows[id := FailedRow(rows[id], retryAt)], Done([]))
      else (rows, Refused(NotProcessing))
  }

  class Service {
    var rows: Rows

    constructor ()
      ensures rows == map[]
    {
      rows := map[];
    }

    method AppendEvent(id: nat, content: nat, book: Option<nat>, source: nat, at: int) returns (r: Result<nat, Refusal>)
      modifies this
      ensures var (after, o) := Step(old(rows), Append(id, content, book, source, at));
              rows == after && r == if o.Done? then Ok(id) else Err(o.reason)
    {
      if id !in rows {
        rows := rows[id := Row(content, book, source, Pending, 0, at, None, at, None)];
        return Ok(id);
      }
      if rows[id].content != content || rows[id].book != book { return Err(IdempotencyConflict); }
      return Ok(id);
    }

    /** Takes the oldest claimable rows one by one, and then leases them together. */
    method ClaimEvents(s: Scope, now: int, limit: int, seconds: int) returns (r: Result<seq<nat>, Refusal>)
      modifies this
      ensures var (after, o) := Step(old(rows), Claim(s, now, limit, seconds));
              rows == after && r == if o.Done? then Ok(o.ids) else Err(o.reason)
    {
      hide Claimable, InScope, StrictTotal, Listing;
      if limit < 1 || limit > 500 || seconds < 5 || seconds > 3600 { return Err(InvalidInput); }
      var claimable := set id | id in rows && Claimable(s, now, rows[id]);
      var ids := Oldest(claimable, limit);
      assert ids == Claimed(rows, s, now, limit);
      rows := map id | id in rows :: if id in ids then Lease(rows[id], now, seconds) else rows[id];
      return Ok(ids);
    }

    /** The ordered selection with its limit. */
    method Oldest(candidates: set<nat>, limit: nat) returns (ids: seq<nat>)
      ensures StrictTotal(Older(rows))
      ensures var all := Listing(candidates, Older(rows)); ids == if |all| <= limit then all else all[..limit]
    {
      hide Older, StrictTotal, Least, Listing;
      OlderIsTotal(rows);
      ghost var all := Listing(candidates, Older(rows));
      ids := [];
      var left := candidates;
      while left != {} && |ids| < limit
        invariant |ids| <= limit && all == ids + Listing(left, Older(rows))
        decreases left
      {
        var id := LeastOf(left);
        TakeFirst(all, ids, left, Older(rows));
        ids := ids + [id];
        left := left - {id};
      }
      ListingEmpty(left, Older(rows));
    }

    method LeastOf(s: set<nat>) returns (id: nat)
      requires s != {} && StrictTotal(Older(rows))
      ensures id == Least(s, Older(rows))
    {
      ghost var m := Least(s, Older(rows));
      id :| id in s && forall y | y in s :: id == y || Older(rows)(id, y);
      Asymmetric(Older(rows), id, m);
    }

    method MarkEventPublished(s: Scope, now: int, id: nat) returns (r: Result<(), Refusal>)
      modifies this
      ensures var (after, o) := Step(old(rows), MarkPublished(s, now, id));
              rows == after && r == if o.Done? then Ok(()) else Err(o.reason)
    {
      if id in rows && InScope(s, rows[id]) && rows[id].status == Processing {
        rows := rows[id := rows[id].(status := Published, publishedAt := Some(now), lease := None)];
        return Ok(());
      }
      return Err(NotProcessing);
    }

    method MarkEventFailed(s: Scope, id: nat, now: int, retryAt: Option<int>, terminal: bool)
      returns (r: Result<(), Refusal>)
      modifies this
      ensures var at := if terminal then NEVER else if retryAt.Some? then retryAt.value else now;
              var (after, o) := Step(old(rows), MarkFailed(s, id, at));
              rows == after && r == if o.Done? then Ok(()) else Err(o.reason)
    {
      var at := if terminal then NEVER else if retryAt.Some? then retryAt.value else now;
      if id in rows && InScope(s, rows[id]) && rows[id].status == Processing {
        rows := rows[id := rows[id].(status := Failed, availableAt := at, lease := None)];
        return Ok(());
      }
      return Err(NotProcessing);
    }
  }

  lemma ListingEmpty(s: set<nat>, lt: (nat, nat) -> bool)
    requires StrictTotal(lt)
    ensures Listing(s, lt) == [] <==> s == {}
  {
    hide StrictTotal;
  }

  lemma TakeFirst(all: seq<nat>, ids: seq<nat>, left: set<nat>, lt: (nat, nat) -> bool)
    requires StrictTotal(lt) && left != {} && all == ids + Listing(left, lt)
    ensures all == (ids + [Least(left, lt)]) + Listing(left - {Least(left, lt)}, lt)
  {
    hide StrictTotal, Listing, Least;
    ListingFirst(left, lt);
    Regrouped(ids, Least(left, lt), Listing(left - {Least(left, lt)}, lt));
  }

  lemma Regrouped(a: seq<nat>, x: nat, b: seq<nat>)
    ensures a + ([x] + b) == (a + [x]) + b
  {
  }

  lemma ListingFirst(s: set<nat>, lt: (nat, nat) -> bool)
    requires StrictTotal(lt) && s != {}
    ensures Listing(s, lt) == [Least(s, lt)] + Listing(s - {Least(s, lt)}, lt)
  {
    hide StrictTotal;
  }
}
