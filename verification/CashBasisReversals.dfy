/** Cash-basis books in which new applications and reversals of earlier ones come in any order
    (src/accounting-basis-projection.ts). */
module CashBasisReversals {
  import opened CashBasis
  import opened Sums
  import opened Wrappers

  /** An application and the exact allocation it was recognised with. */
  datatype Entry = Entry(applied: int, shares: SideShares)

  /** The unrecognised journal, the net of all recognitions and reversals so far, and the applications not reversed. */
  datatype Book = Book(left: seq<Posting>, net: SideShares, active: seq<Entry>)

  datatype Event = Recognition(applied: int) | Reversal(index: nat)

  /** All shares have one amount for every line. */
  ghost predicate Fits(b: Book) {
    && |b.net.debits| == |b.left| && |b.net.credits| == |b.left|
    && forall e | e in b.active :: |e.shares.debits| == |b.left| && |e.shares.credits| == |b.left|
  }

  function Without<T>(s: seq<T>, k: nat): (r: seq<T>)
    requires k < |s|
    ensures |r| == |s| - 1
    ensures forall x | x in r :: x in s
  {
    s[..k] + s[k + 1..]
  }

  /** A journal with shares put back on its lines. */
  function Restored(ps: seq<Posting>, s: SideShares): (r: seq<Posting>)
    requires |s.debits| == |ps| && |s.credits| == |ps|
    ensures |r| == |ps|
    ensures forall i | 0 <= i < |ps| ::
              r[i] == ps[i].(debit := ps[i].debit + s.debits[i], credit := ps[i].credit + s.credits[i])
  {
    seq(|ps|, i requires 0 <= i < |ps| =>
      ps[i].(debit := ps[i].debit + s.debits[i], credit := ps[i].credit + s.credits[i]))
  }

  function TakeShares(a: SideShares, b: SideShares): (r: SideShares)
    requires |a.debits| == |b.debits| && |a.credits| == |b.credits|
    ensures |r.debits| == |a.debits| && |r.credits| == |a.credits|
  {
    SideShares(seq(|a.debits|, i requires 0 <= i < |a.debits| => a.debits[i] - b.debits[i]),
               seq(|a.credits|, i requires 0 <= i < |a.credits| => a.credits[i] - b.credits[i]))
  }

  /** A recognition projects the unrecognised journal; a reversal projects the exact original allocation of an
      earlier application. What the projection refuses leaves the book as it was. */
  ghost function Next(b: Book, controlAccount: Option<nat>, t: ApplicationType, e: Event): (r: Book)
    requires Fits(b)
    ensures Fits(r)
  {
    match e
    case Recognition(applied) =>
      (match LineShares(b.left, controlAccount, t, applied)
       case Err(_) => b
       case Ok(s) => Book(Remaining(b.left, s), AddShares(b.net, s), b.active + [Entry(applied, s)]))
    case Reversal(k) =>
      if k >= |b.active| then b
      else
        var entry := b.active[k];
        assert entry in b.active;
        match LineShares(AllocatedJournal(b.left, entry.shares), controlAccount, t, entry.applied)
        case Err(_) => b
        case Ok(s) => Book(Restored(b.left, s), TakeShares(b.net, s), Without(b.active, k))
  }

  ghost function Start(ps: seq<Posting>): (r: Book)
    ensures Fits(r)
  {
    Book(ps, SideShares(Zeros(|ps|), Zeros(|ps|)), [])
  }

  ghost function Run(b: Book, controlAccount: Option<nat>, t: ApplicationType, events: seq<Event>): (r: Book)
    requires Fits(b)
    ensures Fits(r)
    decreases events
  {
    if events == [] then b else Run(Next(b, controlAccount, t, events[0]), controlAccount, t, events[1..])
  }

  // ---- what the active applications hold ----

  function Amounts(active: seq<Entry>): (r: seq<int>)
    ensures |r| == |active| && forall k | 0 <= k < |active| :: r[k] == active[k].applied
  {
    seq(|active|, k requires 0 <= k < |active| => active[k].applied)
  }

  function DebitsAt(active: seq<Entry>, i: nat): (r: seq<int>)
    requires forall e | e in active :: i < |e.shares.debits|
    ensures |r| == |active|
    ensures forall k | 0 <= k < |active| :: active[k] in active && r[k] == active[k].shares.debits[i]
  {
    seq(|active|, k requires 0 <= k < |active| => assert active[k] in active; active[k].shares.debits[i])
  }

  function CreditsAt(active: seq<Entry>, i: nat): (r: seq<int>)
    requires forall e | e in active :: i < |e.shares.credits|
    ensures |r| == |active|
    ensures forall k | 0 <= k < |active| :: active[k] in active && r[k] == active[k].shares.credits[i]
  {
    seq(|active|, k requires 0 <= k < |active| => assert active[k] in active; active[k].shares.credits[i])
  }

  /** On one line, the net is the total of the active applications' shares. */
  ghost predicate LineHeld(b: Book, i: nat)
    requires Fits(b) && i < |b.left|
  {
    b.net.debits[i] == Sum(DebitsAt(b.active, i)) && b.net.credits[i] == Sum(CreditsAt(b.active, i))
  }

  /** Every active application still carries its amount, within the lines of the original journal. */
  ghost predicate EntriesCarry(ps: seq<Posting>, controlAccount: Option<nat>, t: ApplicationType, active: seq<Entry>)
    requires Journal(ps, controlAccount, t)
  {
    forall e | e in active :: e.applied > 0 && Carries(ps, controlAccount, t, e.applied, e.shares)
  }

  /** Left, capacity and active amounts of a book of the journal `ps`. */
  ghost predicate Measured(ps: seq<Posting>, controlAccount: Option<nat>, t: ApplicationType, b: Book)
    requires Journal(ps, controlAccount, t)
  {
    && PartOf(ps, b.left)
    && Sum(Debits(b.left)) == Sum(Credits(b.left))
    && Room(ps, controlAccount, t, b.left) == Capacity(ps, controlAccount, t) - Sum(Amounts(b.active))
    && (Room(ps, controlAccount, t, b.left) == 0 ==> NothingLeft(b.left))
  }

  ghost predicate Inv(ps: seq<Posting>, controlAccount: Option<nat>, t: ApplicationType, b: Book)
    requires Journal(ps, controlAccount, t) && Fits(b)
  {
    && Conserves(ps, Progress(b.left, b.net))
    && Measured(ps, controlAccount, t, b)
    && EntriesCarry(ps, controlAccount, t, b.active)
    && forall i: nat | i < |b.left| :: LineHeld(b, i)
  }

  lemma {:induction false} SumWithout(s: seq<int>, k: nat)
    requires k < |s|
    ensures Sum(Without(s, k)) == Sum(s) - s[k]
  {
    if k == 0 {
      assert Without(s, 0) == s[1..];
    } else {
      SumWithout(s[1..], k - 1);
      assert Without(s, k)[1..] == Without(s[1..], k - 1);
    }
  }

  lemma SumSnoc(s: seq<int>, x: int)
    ensures Sum(s + [x]) == Sum(s) + x
  {
    SumAppend(s, [x]);
  }

  // ---- what is left is a journal while there is room ----

  lemma RoomIsNotNegative(ps: seq<Posting>, controlAccount: Option<nat>, t: ApplicationType, left: seq<Posting>)
    requires Journal(ps, controlAccount, t) && PartOf(ps, left)
    ensures Room(ps, controlAccount, t, left) >= 0
  {
    hide Sum, Debits, Credits, Positions;
    PartLines(ps, controlAccount, t, left);
    JournalNonNegative(left);
    SumNonNegative(Debits(left));
  }

  /** The unrecognised journal accepts exactly the positive amounts within its room, and what it recognises is the
      whole of it when the room is exhausted. */
  lemma LeftRecognises(ps: seq<Posting>, controlAccount: Option<nat>, t: ApplicationType, b: Book, applied: int)
    requires Journal(ps, controlAccount, t) && Measured(ps, controlAccount, t, b)
    ensures var r := LineShares(b.left, controlAccount, t, applied);
            && (r.Ok? <==> 0 < applied <= Room(ps, controlAccount, t, b.left))
            && (r.Ok? ==>
                  && Journal(b.left, controlAccount, t)
                  && Capacity(b.left, controlAccount, t) == Room(ps, controlAccount, t, b.left)
                  && Carries(b.left, controlAccount, t, applied, r.value)
                  && (applied == Room(ps, controlAccount, t, b.left)
                      ==> r.value == SideShares(Debits(b.left), Credits(b.left))))
  {
    hide Sum, Debits, Credits, LineShares, Journal, Capacity, Room, Carries, ContraWithinHalfCent;
    PartLines(ps, controlAccount, t, b.left);
    RoomIsNotNegative(ps, controlAccount, t, b.left);
    AcceptedWithinCapacity(b.left, controlAccount, t, applied);
    if Room(ps, controlAccount, t, b.left) > 0 {
      PartIsJournal(ps, controlAccount, t, b.left);
      if 0 < applied <= Capacity(b.left, controlAccount, t) {
        ApplicationRecognises(b.left, controlAccount, t, applied);
      }
    } else {
      NothingIsNoJournal(b.left, controlAccount, t);
    }
  }

  lemma {:induction false} NothingSums(ps: seq<Posting>)
    requires NothingLeft(ps)
    ensures Sum(Debits(ps)) == 0
  {
    if ps != [] {
      assert ps[0] in ps;
      NothingSums(ps[1..]);
      assert Debits(ps)[1..] == Debits(ps[1..]);
    }
  }

  lemma NothingIsNoJournal(ps: seq<Posting>, controlAccount: Option<nat>, t: ApplicationType)
    requires NothingLeft(ps)
    ensures !Journal(ps, controlAccount, t)
  {
    NothingSums(ps);
  }

  /** Shares carried by a part of a journal are carried by the journal. */
  lemma CarriedByWhole(ps: seq<Posting>, controlAccount: Option<nat>, t: ApplicationType, left: seq<Posting>,
                       applied: int, s: SideShares)
    requires Journal(ps, controlAccount, t) && PartOf(ps, left) && Journal(left, controlAccount, t)
    requires Carries(left, controlAccount, t, applied, s)
    ensures Carries(ps, controlAccount, t, applied, s)
  {
    hide Sum, Debits, Credits, Positions;
    if controlAccount.Some? { SamePositions(ps, left, controlAccount.value, 0); }
  }

  lemma SameRoom(ps: seq<Posting>, controlAccount: Option<nat>, t: ApplicationType, left: seq<Posting>,
                 rest: seq<Posting>)
    requires Journal(ps, controlAccount, t) && PartOf(ps, left) && Journal(left, controlAccount, t) && |rest| == |ps|
    ensures Room(ps, controlAccount, t, rest) == Room(left, controlAccount, t, rest)
  {
    hide Sum, Debits, Credits, Positions;
    if controlAccount.Some? { SamePositions(ps, left, controlAccount.value, 0); }
  }

  lemma PartOfPart(ps: seq<Posting>, left: seq<Posting>, rest: seq<Posting>)
    requires PartOf(ps, left) && PartOf(left, rest)
    ensures PartOf(ps, rest)
  {
  }

  // ---- a recognition ----

  lemma RecognitionMeasured(ps: seq<Posting>, controlAccount: Option<nat>, t: ApplicationType, b: Book, applied: int,
                            c: Book)
    requires Journal(ps, controlAccount, t) && Fits(b) && Measured(ps, controlAccount, t, b)
    requires LineShares(b.left, controlAccount, t, applied).Ok? && c == Next(b, controlAccount, t, Recognition(applied))
    ensures Measured(ps, controlAccount, t, c)
  {
    hide Sum, Debits, Credits, LineShares, Journal, Capacity, Room, Carries, Fits, PartOf, NothingLeft, Remaining;
    var s := LineShares(b.left, controlAccount, t, applied).value;
    LeftRecognises(ps, controlAccount, t, b, applied);
    CarriesBounds(b.left, controlAccount, t, applied, s);
    RemainingIsPart(b.left, s);
    MeasuredPart(ps, controlAccount, t, b);
    RemainingRoom(b.left, controlAccount, t, applied, s);
    SameRoom(ps, controlAccount, t, b.left, Remaining(b.left, s));
    PartOfPart(ps, b.left, Remaining(b.left, s));
    assert Amounts(c.active) == Amounts(b.active) + [applied];
    SumSnoc(Amounts(b.active), applied);
    if applied == Room(ps, controlAccount, t, b.left) { NothingRemains(b.left, s); }
  }

  lemma CarriesBounds(ps: seq<Posting>, controlAccount: Option<nat>, t: ApplicationType, applied: int, s: SideShares)
    requires Journal(ps, controlAccount, t) && Carries(ps, controlAccount, t, applied, s)
    ensures |s.debits| == |ps| && |s.credits| == |ps|
    ensures forall i | 0 <= i < |ps| :: 0 <= s.debits[i] <= ps[i].debit && 0 <= s.credits[i] <= ps[i].credit
  {
  }

  lemma RecognitionConserves(ps: seq<Posting>, b: Book, s: SideShares)
    requires Conserves(ps, Progress(b.left, b.net)) && |s.debits| == |ps| && |s.credits| == |ps|
    requires forall i | 0 <= i < |ps| :: 0 <= s.debits[i] <= b.left[i].debit && 0 <= s.credits[i] <= b.left[i].credit
    ensures Conserves(ps, Progress(Remaining(b.left, s), AddShares(b.net, s)))
  {
  }

  lemma RecognitionHeld(b: Book, e: Entry, c: Book, i: nat)
    requires Fits(b) && Fits(c) && i < |b.left| == |c.left| && LineHeld(b, i)
    requires c.active == b.active + [e] && e in c.active
    requires c.net.debits[i] == b.net.debits[i] + e.shares.debits[i]
    requires c.net.credits[i] == b.net.credits[i] + e.shares.credits[i]
    ensures LineHeld(c, i)
  {
    hide Sum;
    assert DebitsAt(c.active, i) == DebitsAt(b.active, i) + [e.shares.debits[i]];
    assert CreditsAt(c.active, i) == CreditsAt(b.active, i) + [e.shares.credits[i]];
    SumSnoc(DebitsAt(b.active, i), e.shares.debits[i]);
    SumSnoc(CreditsAt(b.active, i), e.shares.credits[i]);
  }

  lemma RecognitionKeeps(ps: seq<Posting>, controlAccount: Option<nat>, t: ApplicationType, b: Book, applied: int)
    requires Journal(ps, controlAccount, t) && Fits(b) && Inv(ps, controlAccount, t, b)
    ensures Inv(ps, controlAccount, t, Next(b, controlAccount, t, Recognition(applied)))
  {
    hide Sum, LineShares, Journal, Capacity, Room, Carries, Measured, Conserves, LineHeld;
    if LineShares(b.left, controlAccount, t, applied).Ok? {
      var s := LineShares(b.left, controlAccount, t, applied).value;
      var c := Next(b, controlAccount, t, Recognition(applied));
      LeftRecognises(ps, controlAccount, t, b, applied);
      CarriesBounds(b.left, controlAccount, t, applied, s);
      MeasuredPart(ps, controlAccount, t, b);
      CarriedByWhole(ps, controlAccount, t, b.left, applied, s);
      RecognitionMeasured(ps, controlAccount, t, b, applied, c);
      RecognitionConserves(ps, b, s);
      forall i: nat | i < |c.left| ensures LineHeld(c, i) { RecognitionHeld(b, Entry(applied, s), c, i); }
    }
  }

  lemma MeasuredPart(ps: seq<Posting>, controlAccount: Option<nat>, t: ApplicationType, b: Book)
    requires Journal(ps, controlAccount, t) && Measured(ps, controlAccount, t, b)
    ensures PartOf(ps, b.left) && |b.left| == |ps|
  {
  }

  // ---- a reversal ----

  /** Projecting an active application's allocation gives back exactly its shares, whatever has happened since. */
  lemma ReversalIsExact(ps: seq<Posting>, controlAccount: Option<nat>, t: ApplicationType, b: Book, k: nat)
    requires Journal(ps, controlAccount, t) && Fits(b) && Inv(ps, controlAccount, t, b) && k < |b.active|
    ensures |b.active[k].shares.debits| == |b.left| && |b.active[k].shares.credits| == |b.left|
    ensures LineShares(AllocatedJournal(b.left, b.active[k].shares), controlAccount, t, b.active[k].applied)
            == Ok(b.active[k].shares)
  {
    hide Sum, Debits, Credits, LineShares, Journal, Capacity, Room, Carries, Conserves, LineHeld, Recognises;
    var e := b.active[k];
    assert e in b.active;
    SameAllocated(ps, b.left, e.shares);
    AllocatedIsJournal(ps, controlAccount, t, e.applied, e.shares);
    ApplicationRecognises(AllocatedJournal(ps, e.shares), controlAccount, t, e.applied);
  }

  lemma SameAllocated(ps: seq<Posting>, left: seq<Posting>, s: SideShares)
    requires PartOf(ps, left) && |s.debits| == |ps| && |s.credits| == |ps|
    ensures AllocatedJournal(ps, s) == AllocatedJournal(left, s)
  {
  }

  /** An active application's share of a line is part of what is recognised there. */
  lemma ShareWithinNet(ps: seq<Posting>, controlAccount: Option<nat>, t: ApplicationType, b: Book, k: nat, i: nat)
    requires Journal(ps, controlAccount, t) && Fits(b) && EntriesCarry(ps, controlAccount, t, b.active)
    requires k < |b.active| && i < |b.left| == |ps| && LineHeld(b, i)
    ensures b.active[k] in b.active
    ensures 0 <= b.active[k].shares.debits[i] <= b.net.debits[i]
            && 0 <= b.active[k].shares.credits[i] <= b.net.credits[i]
  {
    hide Sum, Journal;
    assert forall j | 0 <= j < |b.active| :: b.active[j] in b.active;
    PartOfSum(DebitsAt(b.active, i), k);
    PartOfSum(CreditsAt(b.active, i), k);
  }

  lemma RestoredSums(left: seq<Posting>, s: SideShares)
    requires |s.debits| == |left| && |s.credits| == |left|
    ensures Sum(Debits(Restored(left, s))) == Sum(Debits(left)) + Sum(s.debits)
    ensures Sum(Credits(Restored(left, s))) == Sum(Credits(left)) + Sum(s.credits)
  {
    hide Sum, Debits, Credits;
    SumDifference(Debits(Restored(left, s)), s.debits, Debits(left));
    SumDifference(Credits(Restored(left, s)), s.credits, Credits(left));
  }

  lemma RestoredRoom(ps: seq<Posting>, controlAccount: Option<nat>, t: ApplicationType, left: seq<Posting>,
                     applied: int, s: SideShares)
    requires Journal(ps, controlAccount, t) && |left| == |ps| && Carries(ps, controlAccount, t, applied, s)
    ensures Room(ps, controlAccount, t, Restored(left, s)) == Room(ps, controlAccount, t, left) + applied
  {
    hide Sum, Debits, Credits, Positions;
    RestoredSums(left, s);
  }

  lemma RestoredIsPart(ps: seq<Posting>, b: Book, s: SideShares)
    requires PartOf(ps, b.left) && Conserves(ps, Progress(b.left, b.net)) && |s.debits| == |ps| && |s.credits| == |ps|
    requires forall i | 0 <= i < |ps| :: 0 <= s.debits[i] <= b.net.debits[i] && 0 <= s.credits[i] <= b.net.credits[i]
    ensures PartOf(ps, Restored(b.left, s))
    ensures Conserves(ps, Progress(Restored(b.left, s), TakeShares(b.net, s)))
  {
  }

  lemma ReversalHeld(b: Book, k: nat, c: Book, i: nat)
    requires Fits(b) && Fits(c) && i < |b.left| == |c.left| && LineHeld(b, i)
    requires k < |b.active| && b.active[k] in b.active && c.active == Without(b.active, k)
    requires c.net.debits[i] == b.net.debits[i] - b.active[k].shares.debits[i]
    requires c.net.credits[i] == b.net.credits[i] - b.active[k].shares.credits[i]
    ensures LineHeld(c, i)
  {
    hide Sum;
    assert DebitsAt(c.active, i) == Without(DebitsAt(b.active, i), k);
    assert CreditsAt(c.active, i) == Without(CreditsAt(b.active, i), k);
    SumWithout(DebitsAt(b.active, i), k);
    SumWithout(CreditsAt(b.active, i), k);
  }

  lemma ReversalMeasured(ps: seq<Posting>, controlAccount: Option<nat>, t: ApplicationType, b: Book, k: nat, c: Book)
    requires Journal(ps, controlAccount, t) && Measured(ps, controlAccount, t, b) && k < |b.active|
    requires var e := b.active[k]; e.applied > 0 && Carries(ps, controlAccount, t, e.applied, e.shares)
    requires |b.left| == |ps| == |b.active[k].shares.debits| == |b.active[k].shares.credits|
    requires c.left == Restored(b.left, b.active[k].shares) && PartOf(ps, c.left) && c.active == Without(b.active, k)
    ensures Measured(ps, controlAccount, t, c)
  {
    hide Sum, Debits, Credits, Journal, Capacity, Room, PartOf, NothingLeft, Restored;
    var e := b.active[k];
    RoomIsNotNegative(ps, controlAccount, t, b.left);
    RestoredRoom(ps, controlAccount, t, b.left, e.applied, e.shares);
    RestoredSums(b.left, e.shares);
    assert Amounts(c.active) == Without(Amounts(b.active), k);
    SumWithout(Amounts(b.active), k);
  }

  lemma ReversalKeeps(ps: seq<Posting>, controlAccount: Option<nat>, t: ApplicationType, b: Book, k: nat)
    requires Journal(ps, controlAccount, t) && Fits(b) && Inv(ps, controlAccount, t, b)
    ensures Inv(ps, controlAccount, t, Next(b, controlAccount, t, Reversal(k)))
  {
    hide Sum, LineShares, Journal, Capacity, Room, Carries, Measured, Conserves, LineHeld;
    if k < |b.active| {
      var e, c := b.active[k], Next(b, controlAccount, t, Reversal(k));
      assert e in b.active;
      MeasuredPart(ps, controlAccount, t, b);
      ReversalIsExact(ps, controlAccount, t, b, k);
      forall i: nat | i < |ps|
        ensures 0 <= e.shares.debits[i] <= b.net.debits[i] && 0 <= e.shares.credits[i] <= b.net.credits[i]
      {
        ShareWithinNet(ps, controlAccount, t, b, k, i);
      }
      RestoredIsPart(ps, b, e.shares);
      ReversalMeasured(ps, controlAccount, t, b, k, c);
      forall i: nat | i < |c.left| ensures LineHeld(c, i) { ReversalHeld(b, k, c, i); }
    }
  }

  // ---- whole runs ----

  lemma WholeIsPart(ps: seq<Posting>)
    requires forall p | p in ps :: p.debit >= 0 && p.credit >= 0
    ensures PartOf(ps, ps)
  {
    assert forall i | 0 <= i < |ps| :: ps[i] in ps;
  }

  lemma WholeRoom(ps: seq<Posting>, controlAccount: Option<nat>, t: ApplicationType)
    requires Journal(ps, controlAccount, t)
    ensures Room(ps, controlAccount, t, ps) == Capacity(ps, controlAccount, t) > 0
    ensures Sum(Debits(ps)) == Sum(Credits(ps))
  {
    hide Sum, Debits, Credits, Positions;
  }

  lemma StartKeeps(ps: seq<Posting>, controlAccount: Option<nat>, t: ApplicationType)
    requires Journal(ps, controlAccount, t)
    ensures Inv(ps, controlAccount, t, Start(ps))
  {
    hide Debits, Credits, Capacity, Room, Conserves, PartOf, HasControl, Zeros, NothingLeft;
    NothingApplied(ps, controlAccount, t);
    WholeIsPart(ps);
    WholeRoom(ps, controlAccount, t);
    assert Amounts([]) == [];
    assert forall i: nat | i < |ps| :: DebitsAt([], i) == [] && CreditsAt([], i) == [];
  }

  lemma {:induction false} RunKeeps(ps: seq<Posting>, controlAccount: Option<nat>, t: ApplicationType, b: Book,
                                    events: seq<Event>)
    requires Journal(ps, controlAccount, t) && Fits(b) && Inv(ps, controlAccount, t, b)
    ensures Inv(ps, controlAccount, t, Run(b, controlAccount, t, events))
    decreases events
  {
    hide Journal, Inv, Fits, Next;
    if events != [] {
      match events[0] {
        case Recognition(applied) => RecognitionKeeps(ps, controlAccount, t, b, applied);
        case Reversal(k) => ReversalKeeps(ps, controlAccount, t, b, k);
      }
      RunKeeps(ps, controlAccount, t, Next(b, controlAccount, t, events[0]), events[1..]);
    }
  }

  /** Whatever recognitions and reversals came before, on every line the net recognised and the unrecognised amount
      make up the original; the next application is accepted exactly when it is positive and within the capacity not
      held by active applications; and every active application can be reversed with exactly its own shares. With no
      application active the journal is the original again, and nothing is left once they hold all of the capacity. */
  lemma RunsConserve(ps: seq<Posting>, controlAccount: Option<nat>, t: ApplicationType, events: seq<Event>,
                     applied: int)
    requires Journal(ps, controlAccount, t)
    ensures var b := Run(Start(ps), controlAccount, t, events);
            && Conserves(ps, Progress(b.left, b.net))
            && (LineShares(b.left, controlAccount, t, applied).Ok?
                <==> 0 < applied <= Capacity(ps, controlAccount, t) - Sum(Amounts(b.active)))
            && (forall k: nat | k < |b.active| ::
                  b.active[k] in b.active
                  && LineShares(AllocatedJournal(b.left, b.active[k].shares), controlAccount, t, b.active[k].applied)
                     == Ok(b.active[k].shares))
            && (b.active == [] ==> b.left == ps)
            && (Sum(Amounts(b.active)) == Capacity(ps, controlAccount, t) ==> NothingLeft(b.left))
  {
    hide Sum, LineShares, Journal, Capacity, Room, Carries, Conserves, NothingLeft;
    StartKeeps(ps, controlAccount, t);
    RunKeeps(ps, controlAccount, t, Start(ps), events);
    var b := Run(Start(ps), controlAccount, t, events);
    LeftRecognises(ps, controlAccount, t, b, applied);
    forall k: nat | k < |b.active|
      ensures LineShares(AllocatedJournal(b.left, b.active[k].shares), controlAccount, t, b.active[k].applied)
              == Ok(b.active[k].shares)
    {
      ReversalIsExact(ps, controlAccount, t, b, k);
    }
    if b.active == [] { NothingHeld(ps, controlAccount, t, b); }
  }

  lemma NothingHeld(ps: seq<Posting>, controlAccount: Option<nat>, t: ApplicationType, b: Book)
    requires Journal(ps, controlAccount, t) && Fits(b) && Inv(ps, controlAccount, t, b) && b.active == []
    ensures b.left == ps
  {
    hide Journal;
    forall i: nat | i < |ps| ensures b.left[i] == ps[i] {
      assert LineHeld(b, i);
      assert DebitsAt(b.active, i) == [] && CreditsAt(b.active, i) == [];
    }
  }
}
