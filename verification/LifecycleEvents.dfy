/** The keyed append of lifecycle events (src/financial-lifecycle.ts). A payload's checksum is kept as its canonical
    text, and an event's identity as the tuple it is a digest of: both digests are taken to be injective. */
module LifecycleEvents {
  import opened Wrappers
  import opened Orders
  import opened JsonText
  import opened CanonicalJson
  import opened CanonicalJsonLaws
  import opened CanonicalJsonOrder

  /** Who caused an event and why; the last three are renewed when a transport repeats a command. */
  datatype Operation = Operation(
    actor: nat, approver: Option<nat>, reason: nat, detail: Option<nat>, request: nat, correlation: nat,
    occurredAt: int)

  datatype Input = Input(
    key: nat, aggregateType: nat, aggregate: nat, eventType: nat, operation: Operation, prior: Option<nat>,
    payload: Json, transportReplay: bool)

  /** What the event's id is a digest of, besides the scope. */
  datatype Identity = Identity(aggregateType: nat, aggregate: nat, eventType: nat, key: nat, checksum: Text)

  datatype Row = Row(id: Identity, operation: Operation, prior: Option<nat>)

  datatype Status = Recorded | AlreadyRecorded

  type Log = map<nat, Row>

  function IdOf(e: Input, le: Collation): Identity {
    Identity(e.aggregateType, e.aggregate, e.eventType, e.key, Print(e.payload, le))
  }

  /** A repeated command by the same people for the same reason; by the same request too,
    unless a transport repeats it. */
  predicate SameOperation(a: Operation, b: Operation, transportReplay: bool) {
    && a.actor == b.actor && a.approver == b.approver && a.reason == b.reason && a.detail == b.detail
    && (transportReplay || (a.request == b.request && a.correlation == b.correlation && a.occurredAt == b.occurredAt))
  }

  function Append(log: Log, e: Input, le: Collation): (Log, Option<Status>) {
    if e.key !in log then (log[e.key := Row(IdOf(e, le), e.operation, e.prior)], Some(Recorded))
    else if log[e.key].id != IdOf(e, le) || !SameOperation(log[e.key].operation, e.operation, e.transportReplay)
      || log[e.key].prior != e.prior
    then (log, None)
    else (log, Some(AlreadyRecorded))
  }

  class Journal {
    var log: Log

    constructor ()
      ensures log == map[]
    {
      log := map[];
    }

    /** Inserts the row unless the key is taken, and then compares the stored row field by field. */
    method AppendFinancialLifecycleEvent(e: Input, le: Collation) returns (r: Option<Status>)
      modifies this
      ensures (log, r) == Append(old(log), e, le)
    {
      hide Print;
      var checksum := Print(e.payload, le);
      var id := Identity(e.aggregateType, e.aggregate, e.eventType, e.key, checksum);
      if e.key !in log {
        log := log[e.key := Row(id, e.operation, e.prior)];
        return Some(Recorded);
      }
      var row := log[e.key];
      if row.id != id || row.operation.actor != e.operation.actor || row.operation.approver != e.operation.approver
         || (!e.transportReplay
             && (row.operation.request != e.operation.request || row.operation.correlation != e.operation.correlation))
         || row.operation.reason != e.operation.reason || row.operation.detail != e.operation.detail
         || (!e.transportReplay && row.operation.occurredAt != e.operation.occurredAt)
         || row.prior != e.prior {
        return None;
      }
      return Some(AlreadyRecorded);
    }
  }

  // ---- whole runs ----

  function Run(log: Log, es: seq<Input>, le: Collation): Log {
    if es == [] then log else Append(Run(log, es[..|es| - 1], le), es[|es| - 1], le).0
  }

  /** The first event of a run with a key, if any. */
  function First(es: seq<Input>, key: nat): Option<Input> {
    if es == [] then None
    else
      var before := First(es[..|es| - 1], key);
      if before.None? && es[|es| - 1].key == key then Some(es[|es| - 1]) else before
  }

  /** The log holds, under every key, exactly the first event that any run appended with it. */
  lemma {:induction false} FirstEventStays(es: seq<Input>, key: nat, le: Collation)
    ensures First(es, key).Some? ==> First(es, key).value.key == key
    ensures key in Run(map[], es, le) <==> First(es, key).Some?
    ensures key in Run(map[], es, le) ==>
              var e := First(es, key).value; Run(map[], es, le)[key] == Row(IdOf(e, le), e.operation, e.prior)
  {
    hide IdOf, SameOperation;
    if es != [] { FirstEventStays(es[..|es| - 1], key, le); }
  }

  /** Two events that a key may stand for: the same identity and operation, and payloads that are equal with objects
      read as unordered maps. */
  ghost predicate SameIntent(e: Input, f: Input) {
    && e.aggregateType == f.aggregateType && e.aggregate == f.aggregate && e.eventType == f.eventType
    && e.prior == f.prior
    && e.operation.actor == f.operation.actor && e.operation.approver == f.operation.approver
    && e.operation.reason == f.operation.reason && e.operation.detail == f.operation.detail
    && (f.transportReplay || e.operation == f.operation)
    && Same(e.payload, f.payload)
  }

  /** After any run, a key that was used is answered as already recorded only for the first event's own intent, and for
      all of it when the first payload's keys are told apart by the collation. */
  lemma ReplayOnlyOfFirstIntent(es: seq<Input>, f: Input, le: Collation)
    requires TotalPreorder(le) && First(es, f.key).Some? && Valid(First(es, f.key).value.payload) && Valid(f.payload)
    ensures var answer := Append(Run(map[], es, le), f, le); var e := First(es, f.key).value;
            && answer.0 == Run(map[], es, le)
            && (answer.1.Some? ==> answer.1 == Some(AlreadyRecorded) && SameIntent(e, f))
            && (TieFree(e.payload, le) ==> (answer.1.Some? <==> SameIntent(e, f)))
  {
    hide Print, Same, Valid, TieFree, TotalPreorder, Run, First;
    FirstEventStays(es, f.key, le);
    var e := First(es, f.key).value;
    if Print(e.payload, le) == Print(f.payload, le) { EqualTextsSame(e.payload, f.payload, le); }
    if TieFree(e.payload, le) { TextsEqualIffSame(e.payload, f.payload, le); }
  }
}
