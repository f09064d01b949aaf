/** The cash-basis view of an invoice or bill application (src/accounting-basis-projection.ts). */
module CashBasis {
  import opened Wrappers
  import opened Sums
  import opened LargestRemainder

  datatype Basis = Accrual | Cash | ModifiedCash
  datatype ApplicationType = CustomerPaymentToInvoice | BillPaymentToBill | CustomerRefundAgainstInvoice
  datatype Action = Recognize | Reverse

  /** Amounts in cents. `scope` stands for tenant, source, transaction and currency together. */
  datatype Posting = Posting(id: nat, scope: nat, basis: Basis, account: nat, debit: int, credit: int)

  /** One projected cash posting, made from the source posting `origin`. */
  datatype Projected = Projected(origin: nat, account: nat, debit: int, credit: int)

  datatype ProjectionError =
    | NoPostings
    | NotAccrual
    | MixedScope
    | Unbalanced
    | AmountOutOfRange
    | ControlNotUnique
    | ControlExceeded

  datatype SideShares = SideShares(debits: seq<int>, credits: seq<int>)

  function Debits(ps: seq<Posting>): (r: seq<int>)
    ensures |r| == |ps| && forall i | 0 <= i < |ps| :: r[i] == ps[i].debit
  {
    if ps == [] then [] else [ps[0].debit] + Debits(ps[1..])
  }

  function Credits(ps: seq<Posting>): (r: seq<int>)
    ensures |r| == |ps| && forall i | 0 <= i < |ps| :: r[i] == ps[i].credit
  {
    if ps == [] then [] else [ps[0].credit] + Credits(ps[1..])
  }

  /** The positions of an account's postings. */
  function Positions(ps: seq<Posting>, account: nat, from: nat): (r: seq<nat>)
    requires from <= |ps|
    ensures forall k :: k in r <==> from <= k < |ps| && ps[k].account == account
    decreases |ps| - from
  {
    if from == |ps| then []
    else (if ps[from].account == account then [from] else []) + Positions(ps, account, from + 1)
  }

  /** Customer receivables are debits; a bill's payable is a credit. */
  predicate ControlIsDebit(t: ApplicationType) {
    t != BillPaymentToBill
  }

  function Zeros(n: nat): (r: seq<int>)
    ensures |r| == n && forall i | 0 <= i < n :: r[i] == 0
  {
    if n == 0 then [] else [0] + Zeros(n - 1)
  }

  /** The contra lines' share of an application, rounded half up to whole cents. */
  function ContraShare(contraTotal: int, applied: int, controlAmount: int): int
    requires controlAmount > 0
  {
    Quotient(contraTotal * applied * 2 + controlAmount, controlAmount * 2)
  }

  /** The contra lines' allocation of their share; nothing when there are no contra amounts. */
  function ContraAllocation(contra: seq<int>, share: int): (r: seq<int>)
    requires NonNegative(contra)
    ensures |r| == |contra|
  {
    SumNonNegative(contra);
    if Sum(contra) == 0 then Zeros(|contra|) else Allocation(contra, share, Sum(contra))
  }

  /** The control line's own side: the control gets the applied amount, contra lines their share. */
  function ControlledSide(same: seq<int>, control: nat, applied: int): seq<int>
    requires control < |same| && same[control] > 0
    requires NonNegative(same)
  {
    var contra := same[control := 0];
    ContraAllocation(contra, ContraShare(Sum(contra), applied, same[control]))[control := applied]
  }

  function OppositeSide(same: seq<int>, opposite: seq<int>, control: nat, applied: int, total: int): seq<int>
    requires control < |same| && same[control] > 0 && total > 0
  {
    Allocation(opposite, applied + ContraShare(Sum(same[control := 0]), applied, same[control]), total)
  }

  lemma SumNonNegative(amounts: seq<int>)
    requires NonNegative(amounts)
    ensures Sum(amounts) >= 0
  {
    SplitBelow(amounts, amounts);
  }

  /** The two sides seen from the control line. */
  function Own(ps: seq<Posting>, t: ApplicationType): seq<int> {
    if ControlIsDebit(t) then Debits(ps) else Credits(ps)
  }

  function Other(ps: seq<Posting>, t: ApplicationType): seq<int> {
    if ControlIsDebit(t) then Credits(ps) else Debits(ps)
  }

  /** The allocation around one explicit control posting. */
  function ControlledShares(ps: seq<Posting>, account: nat, t: ApplicationType, applied: int, total: int)
    : (r: Result<SideShares, ProjectionError>)
    requires total > 0
    ensures r.Ok? ==> |r.value.debits| == |ps| && |r.value.credits| == |ps|
  {
    var at := Positions(ps, account, 0);
    if |at| != 1 then Err(ControlNotUnique)
    else
      var same, opposite := Own(ps, t), Other(ps, t);
      var k := at[0];
      assert k in at;
      if same[k] <= 0 || opposite[k] != 0 || applied > same[k]
         || exists p | p in ps :: p.debit < 0 || p.credit < 0
      then Err(ControlExceeded)
      else
        assert NonNegative(same) by {
          forall i | 0 <= i < |same| ensures same[i] >= 0 { assert ps[i] in ps; }
        }
        var own := ControlledSide(same, k, applied);
        var other := OppositeSide(same, opposite, k, applied, total);
        Ok(if ControlIsDebit(t) then SideShares(own, other) else SideShares(other, own))
  }

  /** The checks of the source, in its order, and the two allocations when all of them pass. */
  function LineShares(ps: seq<Posting>, controlAccount: Option<nat>, t: ApplicationType, applied: int)
    : (r: Result<SideShares, ProjectionError>)
    ensures r.Ok? ==> |r.value.debits| == |ps| && |r.value.credits| == |ps|
  {
    if ps == [] then Err(NoPostings)
    else if exists p | p in ps :: p.basis != Accrual then Err(NotAccrual)
    else if exists p | p in ps :: p.scope != ps[0].scope then Err(MixedScope)
    else
      var debit, credit := Sum(Debits(ps)), Sum(Credits(ps));
      if debit == 0 || debit != credit then Err(Unbalanced)
      else if applied <= 0 || applied > debit then Err(AmountOutOfRange)
      else match controlAccount
        case None => Ok(SideShares(Allocation(Debits(ps), applied, debit), Allocation(Credits(ps), applied, credit)))
        case Some(account) => ControlledShares(ps, account, t, applied, debit)
  }

  /** The projected rows: lines without any share are left out, and a reversal swaps the sides. */
  function Emit(ps: seq<Posting>, s: SideShares, action: Action): (rows: seq<Projected>)
    requires |s.debits| == |ps| && |s.credits| == |ps|
    decreases ps
  {
    if ps == [] then []
    else
      var rest := Emit(ps[1..], SideShares(s.debits[1..], s.credits[1..]), action);
      var d, c := s.debits[0], s.credits[0];
      if d == 0 && c == 0 then rest
      else [if action == Recognize then Projected(ps[0].id, ps[0].account, d, c)
            else Projected(ps[0].id, ps[0].account, c, d)] + rest
  }

  function Projection(ps: seq<Posting>, controlAccount: Option<nat>, t: ApplicationType, action: Action, applied: int)
    : Result<seq<Projected>, ProjectionError>
  {
    match LineShares(ps, controlAccount, t, applied)
    case Err(e) => Err(e)
    case Ok(s) => Ok(Emit(ps, s, action))
  }

  method AllocateContra(contra: seq<int>, share: int) returns (r: seq<int>)
    requires NonNegative(contra)
    ensures r == ContraAllocation(contra, share)
  {
    SumNonNegative(contra);
    r := Zeros(|contra|);
    if Sum(contra) != 0 { r := Allocate(contra, share, Sum(contra)); }
  }

  lemma OwnNonNegative(ps: seq<Posting>, t: ApplicationType)
    requires forall p | p in ps :: p.debit >= 0 && p.credit >= 0
    ensures NonNegative(Own(ps, t))
  {
    assert forall i | 0 <= i < |ps| :: ps[i] in ps;
  }

  /** Both sides around the control position: its own side is overwritten there with the applied amount. */
  method AllocateAround(same: seq<int>, opposite: seq<int>, control: nat, applied: int, total: int)
    returns (own: seq<int>, other: seq<int>)
    requires control < |same| && same[control] > 0 && NonNegative(same) && total > 0
    ensures own == ControlledSide(same, control, applied)
            && other == OppositeSide(same, opposite, control, applied, total)
  {
    hide Sum, ContraShare, Allocation, ContraAllocation;
    var contra := same[control := 0];
    var contraTotal := Sum(contra);
    SumNonNegative(contra);
    var contraShare := ContraShare(contraTotal, applied, same[control]);
    own := AllocateContra(contra, contraShare);
    own := own[control := applied];
    other := Allocate(opposite, applied + contraShare, total);
  }

  /** The control path of the source, with both allocations made by the allocation loop. */
  method AllocateControlled(ps: seq<Posting>, account: nat, t: ApplicationType, applied: int, total: int)
    returns (r: Result<SideShares, ProjectionError>)
    requires total > 0
    ensures r == ControlledShares(ps, account, t, applied, total)
  {
    hide Sum, ControlledSide, OppositeSide, Positions, Own, Other;
    var matches := Positions(ps, account, 0);
    if |matches| != 1 { return Err(ControlNotUnique); }
    var controlIndex := matches[0];
    SidesCover(ps, t);
    assert controlIndex in matches;
    var same, opposite := Own(ps, t), Other(ps, t);
    var controlAmount := same[controlIndex];
    if controlAmount <= 0 || opposite[controlIndex] != 0 || applied > controlAmount
       || exists p | p in ps :: p.debit < 0 || p.credit < 0 {
      return Err(ControlExceeded);
    }
    OwnNonNegative(ps, t);
    var controlled, other := AllocateAround(same, opposite, controlIndex, applied, total);
    r := Ok(if ControlIsDebit(t) then SideShares(controlled, other) else SideShares(other, controlled));
  }

  lemma SidesCover(ps: seq<Posting>, t: ApplicationType)
    ensures |Own(ps, t)| == |Other(ps, t)| == |ps|
  {
  }

  method ProjectCashBasisApplication(ps: seq<Posting>, controlAccount: Option<nat>, t: ApplicationType,
                                     action: Action, applied: int)
    returns (r: Result<seq<Projected>, ProjectionError>)
    ensures r == Projection(ps, controlAccount, t, action, applied)
  {
    hide ControlledShares;
    if ps == [] { return Err(NoPostings); }
    if exists p | p in ps :: p.basis != Accrual { return Err(NotAccrual); }
    if exists p | p in ps :: p.scope != ps[0].scope { return Err(MixedScope); }
    var debit, credit := Sum(Debits(ps)), Sum(Credits(ps));
    if debit == 0 || debit != credit { return Err(Unbalanced); }
    if applied <= 0 || applied > debit { return Err(AmountOutOfRange); }
    if controlAccount.None? {
      var debits := Allocate(Debits(ps), applied, debit);
      var credits := Allocate(Credits(ps), applied, credit);
      return Ok(Emit(ps, SideShares(debits, credits), action));
    }
    var shares := AllocateControlled(ps, controlAccount.value, t, applied, debit);
    if shares.Err? { return Err(shares.error); }
    return Ok(Emit(ps, shares.value, action));
  }

  // ---- one application ----

  ghost predicate HasControl(ps: seq<Posting>, account: nat, t: ApplicationType) {
    && |Positions(ps, account, 0)| == 1
    && Positions(ps, account, 0)[0] in Positions(ps, account, 0)
    && Own(ps, t)[Positions(ps, account, 0)[0]] > 0
    && Other(ps, t)[Positions(ps, account, 0)[0]] == 0
  }

  /** A balanced, non-negative accrual journal with something left to recognise. */
  ghost predicate Journal(ps: seq<Posting>, controlAccount: Option<nat>, t: ApplicationType) {
    && ps != []
    && (forall p | p in ps :: p.basis == Accrual && p.scope == ps[0].scope && p.debit >= 0 && p.credit >= 0)
    && Sum(Debits(ps)) == Sum(Credits(ps)) > 0
    && (controlAccount.Some? ==> HasControl(ps, controlAccount.value, t))
  }

  /** How much can still be applied: the control balance, or the journal total without a control. */
  ghost function Capacity(ps: seq<Posting>, controlAccount: Option<nat>, t: ApplicationType): int
    requires Journal(ps, controlAccount, t)
  {
    match controlAccount
    case None => Sum(Debits(ps))
    case Some(account) => Own(ps, t)[Positions(ps, account, 0)[0]]
  }

  /** Rounding half up misses the exact quotient by at most half a unit. */
  lemma HalfUp(p: int, control: int, share: int)
    requires p >= 0 && control > 0 && share == (p * 2 + control) / (control * 2)
    ensures share >= 0 && -control < 2 * (control * share - p) <= control
  {
    var n, d := p * 2 + control, control * 2;
    assert n == d * share + n % d;
    assert d * share == 2 * (control * share);
  }

  lemma HalfUpRange(contra: int, control: int, p: int, share: int)
    requires contra >= 0 && control > 0 && 0 <= p <= contra * control
    requires -control < 2 * (control * share - p) <= control
    ensures share <= contra
    ensures p == contra * control ==> share == contra
  {
    assert control * share == share * control;
    assert (contra + 1) * control == contra * control + control;
    assert (contra - 1) * control == contra * control - control;
    CompareProducts(share, contra + 1, control);
    CompareProducts(contra - 1, share, control);
  }

  /** `share` is within half a cent of contra * applied / control. */
  ghost predicate WithinHalfCent(share: int, contra: int, applied: int, control: int) {
    -control <= 2 * (control * share - contra * applied) <= control
  }

  lemma ContraFacts(contra: int, applied: int, control: int)
    requires contra >= 0 && 0 < applied <= control
    ensures var share := ContraShare(contra, applied, control);
            && 0 <= share <= contra
            && WithinHalfCent(share, contra, applied, control)
            && (applied == control ==> share == contra)
  {
    var p := contra * applied;
    assert 0 <= p <= contra * control;
    var share := ContraShare(contra, applied, control);
    HalfUp(p, control, share);
    HalfUpRange(contra, control, p, share);
  }

  lemma ContraAllocationSplits(contra: seq<int>, share: int)
    requires NonNegative(contra) && 0 <= share <= Sum(contra)
    ensures Splits(contra, share, ContraAllocation(contra, share))
  {
    hide Allocation;
    if Sum(contra) > 0 { AllocationSplits(contra, share, Sum(contra)); } else { ZeroSum(|contra|); }
  }

  lemma PlaceControl(same: seq<int>, k: nat, share: int, base: seq<int>, applied: int)
    requires k < |same| && 0 <= applied <= same[k] && Splits(same[k := 0], share, base)
    ensures Splits(same, applied + share, base[k := applied])
  {
    var contra, own := same[k := 0], base[k := applied];
    SumUpdate(base, k, applied);
    assert base[k] == contra[k] == 0;
    forall i | 0 <= i < |same| ensures 0 <= own[i] <= same[i] {
      assert i == k || (own[i] == base[i] && contra[i] == same[i]);
    }
  }

  /** The control's own side: the applied amount on the control, the contra share on the other lines. */
  lemma OwnSideSplits(same: seq<int>, k: nat, applied: int)
    requires k < |same| && NonNegative(same) && 0 < applied <= same[k]
    ensures var contra := Sum(same) - same[k];
            var share := ContraShare(contra, applied, same[k]);
            var own := ControlledSide(same, k, applied);
            && contra >= 0 && contra == Sum(same[k := 0])
            && Splits(same, applied + share, own) && own[k] == applied
  {
    hide Sum, Splits, ContraShare, WithinHalfCent, ContraAllocation;
    var contra := same[k := 0];
    SumUpdate(same, k, 0);
    SumNonNegative(contra);
    ContraFacts(Sum(contra), applied, same[k]);
    var share := ContraShare(Sum(contra), applied, same[k]);
    ContraAllocationSplits(contra, share);
    PlaceControl(same, k, share, ContraAllocation(contra, share), applied);
  }

  lemma ControlledSplits(same: seq<int>, opposite: seq<int>, k: nat, applied: int)
    requires |same| == |opposite| && k < |same| && NonNegative(same) && NonNegative(opposite)
    requires 0 < applied <= same[k] && opposite[k] == 0 && Sum(same) == Sum(opposite) > 0
    ensures var contra := Sum(same) - same[k];
            var share := ContraShare(contra, applied, same[k]);
            var own := ControlledSide(same, k, applied);
            var other := OppositeSide(same, opposite, k, applied, Sum(same));
            && contra >= 0
            && Splits(same, applied + share, own) && own[k] == applied
            && Splits(opposite, applied + share, other)
            && (applied == same[k] ==> own == same && other == opposite)
  {
    hide Sum, Zeros, ContraShare, WithinHalfCent, Allocation, ControlledSide;
    OwnSideSplits(same, k, applied);
    ContraFacts(Sum(same) - same[k], applied, same[k]);
    var share := ContraShare(Sum(same) - same[k], applied, same[k]);
    AllocationSplits(opposite, applied + share, Sum(same));
    if applied == same[k] {
      SplitOfAll(same, ControlledSide(same, k, applied));
      SplitOfAll(opposite, OppositeSide(same, opposite, k, applied, Sum(same)));
    }
  }

  lemma {:induction false} ZeroSum(n: nat)
    ensures Sum(Zeros(n)) == 0
  {
    if n > 0 { ZeroSum(n - 1); }
  }

  /** Shares of a journal that balance, stay within every line, and carry the applied amount: on the control line, or
      in all without one. */
  ghost predicate Carries(ps: seq<Posting>, controlAccount: Option<nat>, t: ApplicationType, applied: int,
                          s: SideShares)
    requires Journal(ps, controlAccount, t)
  {
    && |s.debits| == |ps| && |s.credits| == |ps|
    && Sum(s.debits) == Sum(s.credits)
    && (forall i | 0 <= i < |ps| :: 0 <= s.debits[i] <= ps[i].debit && 0 <= s.credits[i] <= ps[i].credit)
    && match controlAccount
       case None => Sum(s.debits) == applied
       case Some(account) =>
         (if ControlIsDebit(t) then s.debits else s.credits)[Positions(ps, account, 0)[0]] == applied
  }

  /** The contra lines' shares are within half a cent of their exact proportion. */
  ghost predicate ContraWithinHalfCent(ps: seq<Posting>, account: nat, t: ApplicationType, applied: int, s: SideShares)
    requires Journal(ps, Some(account), t) && |s.debits| == |ps| && |s.credits| == |ps|
  {
    var k := Positions(ps, account, 0)[0];
    var own := if ControlIsDebit(t) then s.debits else s.credits;
    WithinHalfCent(Sum(own) - applied, Sum(Own(ps, t)) - Own(ps, t)[k], applied, Own(ps, t)[k])
  }

  /** What one application recognises of a journal. */
  ghost predicate Recognises(ps: seq<Posting>, controlAccount: Option<nat>, t: ApplicationType, applied: int,
                             s: SideShares)
    requires Journal(ps, controlAccount, t)
  {
    && Carries(ps, controlAccount, t, applied, s)
    && (controlAccount.Some? ==> ContraWithinHalfCent(ps, controlAccount.value, t, applied, s))
  }

  lemma JournalNonNegative(ps: seq<Posting>)
    requires forall p | p in ps :: p.debit >= 0 && p.credit >= 0
    ensures NonNegative(Debits(ps)) && NonNegative(Credits(ps))
  {
    forall i | 0 <= i < |ps| ensures Debits(ps)[i] >= 0 && Credits(ps)[i] >= 0 { assert ps[i] in ps; }
  }

  lemma ControlledRecognises(ps: seq<Posting>, account: nat, t: ApplicationType, applied: int)
    requires Journal(ps, Some(account), t)
    requires 0 < applied <= Capacity(ps, Some(account), t)
    ensures var r := ControlledShares(ps, account, t, applied, Sum(Debits(ps)));
            && r.Ok?
            && Recognises(ps, Some(account), t, applied, r.value)
            && (applied == Capacity(ps, Some(account), t) ==> r.value == SideShares(Debits(ps), Credits(ps)))
            && applied <= Sum(Debits(ps))
  {
    hide Sum, Debits, Credits, Positions, ContraShare, WithinHalfCent, ControlledSide, OppositeSide;
    var k := Positions(ps, account, 0)[0];
    var same, opposite := Own(ps, t), Other(ps, t);
    JournalNonNegative(ps);
    ControlledSplits(same, opposite, k, applied);
    ContraFacts(Sum(same) - same[k], applied, same[k]);
    PartOfSum(same, k);
  }

  /** One application: accepted, balanced, within every line, exact on the control line, contra lines within
      half a cent of their exact proportion, and the whole journal when the whole capacity is applied. */
  lemma ApplicationRecognises(ps: seq<Posting>, controlAccount: Option<nat>, t: ApplicationType, applied: int)
    requires Journal(ps, controlAccount, t)
    requires 0 < applied <= Capacity(ps, controlAccount, t)
    ensures var r := LineShares(ps, controlAccount, t, applied);
            && r.Ok?
            && Recognises(ps, controlAccount, t, applied, r.value)
            && (applied == Capacity(ps, controlAccount, t) ==> r.value == SideShares(Debits(ps), Credits(ps)))
  {
    hide Sum, WithinHalfCent, ControlledShares, Allocation;
    match controlAccount {
      case None =>
        JournalNonNegative(ps);
        var total := Sum(Debits(ps));
        AllocationSplits(Debits(ps), applied, total);
        AllocationSplits(Credits(ps), applied, total);
        if applied == total {
          SplitOfAll(Debits(ps), Allocation(Debits(ps), applied, total));
          SplitOfAll(Credits(ps), Allocation(Credits(ps), applied, total));
        }
      case Some(account) =>
        ControlledRecognises(ps, account, t, applied);
    }
  }

  lemma PartOfSum(amounts: seq<int>, k: nat)
    requires NonNegative(amounts) && k < |amounts|
    ensures amounts[k] <= Sum(amounts)
  {
    SumUpdate(amounts, k, 0);
    SumNonNegative(amounts[k := 0]);
  }

  /** An accepted application is never more than the capacity of a non-negative journal. */
  lemma AcceptedWithinCapacity(ps: seq<Posting>, controlAccount: Option<nat>, t: ApplicationType, applied: int)
    requires forall p | p in ps :: p.debit >= 0 && p.credit >= 0
    ensures LineShares(ps, controlAccount, t, applied).Ok?
            <==> Journal(ps, controlAccount, t) && 0 < applied <= Capacity(ps, controlAccount, t)
  {
    if Journal(ps, controlAccount, t) && 0 < applied <= Capacity(ps, controlAccount, t) {
      hide LineShares, Journal, Capacity, Recognises;
      ApplicationRecognises(ps, controlAccount, t, applied);
    } else if LineShares(ps, controlAccount, t, applied).Ok? {
      AcceptedIsJournal(ps, controlAccount, t, applied);
    }
  }

  lemma AcceptedIsJournal(ps: seq<Posting>, controlAccount: Option<nat>, t: ApplicationType, applied: int)
    requires forall p | p in ps :: p.debit >= 0 && p.credit >= 0
    requires LineShares(ps, controlAccount, t, applied).Ok?
    ensures Journal(ps, controlAccount, t) && 0 < applied <= Capacity(ps, controlAccount, t)
  {
    hide Sum, Debits, Credits, Positions, Allocation, ControlledSide, OppositeSide;
    JournalNonNegative(ps);
    SumNonNegative(Debits(ps));
  }

  // ---- repeated applications ----

  /** The part of the journal an application leaves unrecognised. */
  function Remaining(ps: seq<Posting>, s: SideShares): (r: seq<Posting>)
    requires |s.debits| == |ps| && |s.credits| == |ps|
    ensures |r| == |ps|
    ensures forall i | 0 <= i < |ps| ::
              r[i] == ps[i].(debit := ps[i].debit - s.debits[i], credit := ps[i].credit - s.credits[i])
  {
    seq(|ps|, i requires 0 <= i < |ps| => ps[i].(debit := ps[i].debit - s.debits[i],
                                                 credit := ps[i].credit - s.credits[i]))
  }

  function AddShares(a: SideShares, b: SideShares): (r: SideShares)
    requires |a.debits| == |b.debits| && |a.credits| == |b.credits|
    ensures |r.debits| == |a.debits| && |r.credits| == |a.credits|
  {
    SideShares(seq(|a.debits|, i requires 0 <= i < |a.debits| => a.debits[i] + b.debits[i]),
           seq(|a.credits|, i requires 0 <= i < |a.credits| => a.credits[i] + b.credits[i]))
  }

  /** A journal after a series of applications: what is left, and all that was recognised. */
  datatype Progress = Progress(left: seq<Posting>, recognised: SideShares)

  function Apply(ps: seq<Posting>, controlAccount: Option<nat>, t: ApplicationType, pieces: seq<int>)
    : (r: Result<Progress, ProjectionError>)
    ensures r.Ok? ==> |r.value.left| == |r.value.recognised.debits| == |r.value.recognised.credits| == |ps|
    decreases pieces
  {
    if pieces == [] then Ok(Progress(ps, SideShares(Zeros(|ps|), Zeros(|ps|))))
    else match LineShares(ps, controlAccount, t, pieces[0])
      case Err(e) => Err(e)
      case Ok(s) =>
        match Apply(Remaining(ps, s), controlAccount, t, pieces[1..])
        case Err(e) => Err(e)
        case Ok(p) => Ok(Progress(p.left, AddShares(s, p.recognised)))
  }

  lemma {:induction false} SumDifference(a: seq<int>, b: seq<int>, d: seq<int>)
    requires |a| == |b| == |d| && forall i | 0 <= i < |a| :: d[i] == a[i] - b[i]
    ensures Sum(d) == Sum(a) - Sum(b)
  {
    if a != [] { SumDifference(a[1..], b[1..], d[1..]); }
  }

  lemma {:induction false} SamePositions(ps: seq<Posting>, qs: seq<Posting>, account: nat, from: nat)
    requires |ps| == |qs| && from <= |ps| && forall i | 0 <= i < |ps| :: ps[i].account == qs[i].account
    ensures Positions(ps, account, from) == Positions(qs, account, from)
    decreases |ps| - from
  {
    if from < |ps| { SamePositions(ps, qs, account, from + 1); }
  }

  lemma RemainingLines(ps: seq<Posting>, s: SideShares)
    requires forall p | p in ps :: p.basis == Accrual && p.scope == ps[0].scope
    requires |s.debits| == |ps| && |s.credits| == |ps|
    requires forall i | 0 <= i < |ps| :: s.debits[i] <= ps[i].debit && s.credits[i] <= ps[i].credit
    ensures forall p | p in Remaining(ps, s) ::
              p.basis == Accrual && p.scope == ps[0].scope && p.debit >= 0 && p.credit >= 0
    ensures Sum(Debits(Remaining(ps, s))) == Sum(Debits(ps)) - Sum(s.debits)
    ensures Sum(Credits(Remaining(ps, s))) == Sum(Credits(ps)) - Sum(s.credits)
  {
    hide Sum, Debits, Credits;
    var rest := Remaining(ps, s);
    SumDifference(Debits(ps), s.debits, Debits(rest));
    SumDifference(Credits(ps), s.credits, Credits(rest));
    forall p | p in rest
      ensures p.basis == Accrual && p.scope == ps[0].scope && p.debit >= 0 && p.credit >= 0
    {
      var i :| 0 <= i < |rest| && rest[i] == p;
      assert ps[i] in ps;
    }
  }

  /** A control line with something on it makes the whole side positive. */
  lemma ControlMakesTotal(ps: seq<Posting>, account: nat, t: ApplicationType)
    requires HasControl(ps, account, t) && forall p | p in ps :: p.debit >= 0 && p.credit >= 0
    ensures Sum(Own(ps, t)) > 0
  {
    hide Sum, Debits, Credits, Positions;
    JournalNonNegative(ps);
    PartOfSum(Own(ps, t), Positions(ps, account, 0)[0]);
  }

  /** The same lines as a journal's, with no more on any of them. */
  ghost predicate PartOf(ps: seq<Posting>, left: seq<Posting>) {
    && |left| == |ps|
    && forall i | 0 <= i < |ps| ::
         && left[i] == ps[i].(debit := left[i].debit, credit := left[i].credit)
         && 0 <= left[i].debit <= ps[i].debit && 0 <= left[i].credit <= ps[i].credit
  }

  /** How much a part of a journal still has to apply: on the control line, or in all without one. */
  ghost function Room(ps: seq<Posting>, controlAccount: Option<nat>, t: ApplicationType, left: seq<Posting>): int
    requires Journal(ps, controlAccount, t) && |left| == |ps|
  {
    match controlAccount
    case None => Sum(Debits(left))
    case Some(account) => Own(left, t)[Positions(ps, account, 0)[0]]
  }

  lemma PartControl(ps: seq<Posting>, account: nat, t: ApplicationType, left: seq<Posting>)
    requires Journal(ps, Some(account), t) && PartOf(ps, left) && Room(ps, Some(account), t, left) > 0
    ensures HasControl(left, account, t) && Positions(left, account, 0) == Positions(ps, account, 0)
  {
    hide Sum, Debits, Credits, Positions;
    SamePositions(ps, left, account, 0);
  }

  lemma PartLines(ps: seq<Posting>, controlAccount: Option<nat>, t: ApplicationType, left: seq<Posting>)
    requires Journal(ps, controlAccount, t) && PartOf(ps, left)
    ensures left != []
    ensures forall p | p in left :: p.basis == Accrual && p.scope == left[0].scope && p.debit >= 0 && p.credit >= 0
  {
    assert forall i | 0 <= i < |ps| :: ps[i] in ps;
  }

  /** A balanced part of a journal with something left to apply is itself a journal, with that capacity. */
  lemma PartIsJournal(ps: seq<Posting>, controlAccount: Option<nat>, t: ApplicationType, left: seq<Posting>)
    requires Journal(ps, controlAccount, t) && PartOf(ps, left)
    requires Sum(Debits(left)) == Sum(Credits(left)) && Room(ps, controlAccount, t, left) > 0
    ensures Journal(left, controlAccount, t) && Capacity(left, controlAccount, t) == Room(ps, controlAccount, t, left)
  {
    hide Sum, Debits, Credits, Positions, PartOf, HasControl;
    PartLines(ps, controlAccount, t, left);
    if controlAccount.Some? {
      PartControl(ps, controlAccount.value, t, left);
      ControlMakesTotal(left, controlAccount.value, t);
    }
  }

  lemma RemainingIsPart(ps: seq<Posting>, s: SideShares)
    requires |s.debits| == |ps| && |s.credits| == |ps|
    requires forall i | 0 <= i < |ps| :: 0 <= s.debits[i] <= ps[i].debit && 0 <= s.credits[i] <= ps[i].credit
    ensures PartOf(ps, Remaining(ps, s))
  {
  }

  lemma RemainingRoom(ps: seq<Posting>, controlAccount: Option<nat>, t: ApplicationType, applied: int, s: SideShares)
    requires Journal(ps, controlAccount, t) && Carries(ps, controlAccount, t, applied, s)
    ensures Room(ps, controlAccount, t, Remaining(ps, s)) == Capacity(ps, controlAccount, t) - applied
    ensures Sum(Debits(Remaining(ps, s))) == Sum(Credits(Remaining(ps, s)))
  {
    hide Sum, Debits, Credits, Positions;
    RemainingLines(ps, s);
  }

  /** What an application leaves is again a journal, with its capacity reduced by exactly the applied amount. */
  lemma RemainingIsJournal(ps: seq<Posting>, controlAccount: Option<nat>, t: ApplicationType, applied: int,
                           s: SideShares)
    requires Journal(ps, controlAccount, t) && 0 < applied < Capacity(ps, controlAccount, t)
    requires Carries(ps, controlAccount, t, applied, s)
    ensures Journal(Remaining(ps, s), controlAccount, t)
    ensures Capacity(Remaining(ps, s), controlAccount, t) == Capacity(ps, controlAccount, t) - applied
  {
    hide Journal, Capacity, Room, Sum, Debits, Credits, PartOf, Remaining;
    RemainingIsPart(ps, s);
    RemainingRoom(ps, controlAccount, t, applied, s);
    PartIsJournal(ps, controlAccount, t, Remaining(ps, s));
  }

  ghost predicate NothingLeft(ps: seq<Posting>) {
    forall p | p in ps :: p.debit == 0 && p.credit == 0
  }

  /** Line by line, what was recognised and what is left make up the original, and neither is negative. */
  ghost predicate Conserves(ps: seq<Posting>, p: Progress) {
    && |p.left| == |ps| && |p.recognised.debits| == |ps| && |p.recognised.credits| == |ps|
    && forall i | 0 <= i < |ps| ::
         && p.left[i].debit >= 0 && p.left[i].credit >= 0
         && p.recognised.debits[i] >= 0 && p.recognised.credits[i] >= 0
         && p.recognised.debits[i] + p.left[i].debit == ps[i].debit
         && p.recognised.credits[i] + p.left[i].credit == ps[i].credit
  }

  /** Where a series of applications of `applied` cents in all leaves a journal. */
  ghost predicate Leaves(ps: seq<Posting>, controlAccount: Option<nat>, t: ApplicationType, applied: int,
                         left: seq<Posting>)
    requires Journal(ps, controlAccount, t)
  {
    && Sum(Debits(left)) == Sum(Credits(left))
    && (applied == Capacity(ps, controlAccount, t) ==> NothingLeft(left))
    && (applied < Capacity(ps, controlAccount, t) ==>
          Journal(left, controlAccount, t)
          && Capacity(left, controlAccount, t) == Capacity(ps, controlAccount, t) - applied)
  }

  /** Any series of positive applications within the capacity is accepted, piece after piece. It keeps the
      remaining journal balanced and non-negative, conserves every line, and leaves nothing at all
      once the pieces together exhaust the capacity, however it was cut up. */
  lemma {:induction false} InstallmentsConserve(ps: seq<Posting>, controlAccount: Option<nat>, t: ApplicationType,
                                                pieces: seq<int>)
    requires Journal(ps, controlAccount, t)
    requires (forall i | 0 <= i < |pieces| :: pieces[i] > 0) && Sum(pieces) <= Capacity(ps, controlAccount, t)
    ensures var r := Apply(ps, controlAccount, t, pieces);
            r.Ok? && Conserves(ps, r.value) && Leaves(ps, controlAccount, t, Sum(pieces), r.value.left)
    decreases pieces
  {
    hide WithinHalfCent, LineShares, Debits, Credits, Positions, Capacity, Journal, Conserves, Leaves;
    if pieces == [] {
      NothingApplied(ps, controlAccount, t);
    } else {
      ApplicationOfFirst(ps, controlAccount, t, pieces);
      var s := LineShares(ps, controlAccount, t, pieces[0]).value;
      var rest := Remaining(ps, s);
      if pieces[0] == Capacity(ps, controlAccount, t) {
        PositiveSum(pieces[1..]);
        assert pieces[1..] == [];
        AllApplied(ps, controlAccount, t, pieces[0], s);
      } else {
        RemainingIsJournal(ps, controlAccount, t, pieces[0], s);
        InstallmentsConserve(rest, controlAccount, t, pieces[1..]);
        var p := Apply(rest, controlAccount, t, pieces[1..]).value;
        StepConserves(ps, controlAccount, t, pieces[0], s, p);
        StepLeaves(ps, rest, controlAccount, t, pieces[0], Sum(pieces[1..]), p.left);
      }
    }
  }

  lemma NothingApplied(ps: seq<Posting>, controlAccount: Option<nat>, t: ApplicationType)
    requires Journal(ps, controlAccount, t)
    ensures Conserves(ps, Progress(ps, SideShares(Zeros(|ps|), Zeros(|ps|))))
    ensures Leaves(ps, controlAccount, t, 0, ps)
  {
    hide Debits, Credits, Positions, Sum;
    forall i | 0 <= i < |ps| ensures ps[i].debit >= 0 && ps[i].credit >= 0 { assert ps[i] in ps; }
    if controlAccount.None? { assert Capacity(ps, controlAccount, t) > 0; }
  }

  lemma AllApplied(ps: seq<Posting>, controlAccount: Option<nat>, t: ApplicationType, applied: int, s: SideShares)
    requires Journal(ps, controlAccount, t) && applied == Capacity(ps, controlAccount, t)
    requires s == SideShares(Debits(ps), Credits(ps))
    ensures var zero := SideShares(Zeros(|ps|), Zeros(|ps|));
            Conserves(ps, Progress(Remaining(ps, s), AddShares(s, zero)))
    ensures Leaves(ps, controlAccount, t, applied, Remaining(ps, s))
  {
    AllConserved(ps, s);
    hide Debits, Credits, Positions, Conserves, Capacity;
    RemainingLines(ps, s);
    assert NothingLeft(Remaining(ps, s)) by { NothingRemains(ps, s); }
  }

  lemma NothingRemains(ps: seq<Posting>, s: SideShares)
    requires s == SideShares(Debits(ps), Credits(ps))
    ensures NothingLeft(Remaining(ps, s))
  {
    hide Sum;
    var rest := Remaining(ps, s);
    forall p | p in rest ensures p.debit == 0 && p.credit == 0 {
      var i :| 0 <= i < |rest| && rest[i] == p;
    }
  }

  lemma AllConserved(ps: seq<Posting>, s: SideShares)
    requires s == SideShares(Debits(ps), Credits(ps))
    requires forall p | p in ps :: p.debit >= 0 && p.credit >= 0
    ensures Conserves(ps, Progress(Remaining(ps, s), AddShares(s, SideShares(Zeros(|ps|), Zeros(|ps|)))))
  {
    hide Remaining, AddShares, Debits, Credits, Zeros, Conserves;
    var left, all := Remaining(ps, s), AddShares(s, SideShares(Zeros(|ps|), Zeros(|ps|)));
    forall i | 0 <= i < |ps| ensures LineDone(ps[i], left[i], all.debits[i], all.credits[i]) {
      assert ps[i] in ps;
      RemainderAt(ps, i);
      SharesAt(ps, i);
    }
    AllDone(ps, left, all);
  }

  predicate LineDone(p: Posting, left: Posting, debit: int, credit: int) {
    left.debit == 0 && left.credit == 0 && debit == p.debit >= 0 && credit == p.credit >= 0
  }

  lemma AllDone(ps: seq<Posting>, left: seq<Posting>, all: SideShares)
    requires |left| == |ps| == |all.debits| == |all.credits|
    requires forall i | 0 <= i < |ps| :: LineDone(ps[i], left[i], all.debits[i], all.credits[i])
    ensures Conserves(ps, Progress(left, all))
  {
    assert forall i | 0 <= i < |ps| :: LineDone(ps[i], left[i], all.debits[i], all.credits[i]);
  }

  lemma RemainderAt(ps: seq<Posting>, i: nat)
    requires i < |ps|
    ensures var left := Remaining(ps, SideShares(Debits(ps), Credits(ps)));
            left[i].debit == 0 && left[i].credit == 0
  {
  }

  lemma SharesAt(ps: seq<Posting>, i: nat)
    requires i < |ps|
    ensures var all := AddShares(SideShares(Debits(ps), Credits(ps)), SideShares(Zeros(|ps|), Zeros(|ps|)));
            all.debits[i] == ps[i].debit && all.credits[i] == ps[i].credit
  {
  }

  lemma StepConserves(ps: seq<Posting>, controlAccount: Option<nat>, t: ApplicationType, applied: int, s: SideShares,
                      p: Progress)
    requires Journal(ps, controlAccount, t) && Carries(ps, controlAccount, t, applied, s)
    requires Conserves(Remaining(ps, s), p)
    ensures Conserves(ps, Progress(p.left, AddShares(s, p.recognised)))
  {
    hide Debits, Credits, Positions, Sum;
  }

  lemma StepLeaves(ps: seq<Posting>, rest: seq<Posting>, controlAccount: Option<nat>, t: ApplicationType,
                   applied: int, more: int, left: seq<Posting>)
    requires Journal(ps, controlAccount, t) && Journal(rest, controlAccount, t)
    requires Capacity(rest, controlAccount, t) == Capacity(ps, controlAccount, t) - applied
    requires Leaves(rest, controlAccount, t, more, left)
    ensures Leaves(ps, controlAccount, t, applied + more, left)
  {
    hide Journal, Capacity;
  }

  lemma {:induction false} PositiveSum(pieces: seq<int>)
    requires forall i | 0 <= i < |pieces| :: pieces[i] > 0
    ensures Sum(pieces) >= |pieces|
  {
    if pieces != [] { PositiveSum(pieces[1..]); }
  }

  lemma ApplicationOfFirst(ps: seq<Posting>, controlAccount: Option<nat>, t: ApplicationType, pieces: seq<int>)
    requires Journal(ps, controlAccount, t) && pieces != []
    requires (forall i | 0 <= i < |pieces| :: pieces[i] > 0) && Sum(pieces) <= Capacity(ps, controlAccount, t)
    ensures 0 < pieces[0] <= Capacity(ps, controlAccount, t)
    ensures var r := LineShares(ps, controlAccount, t, pieces[0]);
            && r.Ok? && Recognises(ps, controlAccount, t, pieces[0], r.value)
            && (pieces[0] == Capacity(ps, controlAccount, t) ==> r.value == SideShares(Debits(ps), Credits(ps)))
  {
    PositiveSum(pieces[1..]);
    ApplicationRecognises(ps, controlAccount, t, pieces[0]);
  }

  // ---- reversal ----

  /** The journal made of an allocation, which the caller supplies to reverse it. */
  function AllocatedJournal(ps: seq<Posting>, s: SideShares): (r: seq<Posting>)
    requires |s.debits| == |ps| && |s.credits| == |ps|
    ensures |r| == |ps|
    ensures forall i | 0 <= i < |ps| :: r[i] == ps[i].(debit := s.debits[i], credit := s.credits[i])
  {
    seq(|ps|, i requires 0 <= i < |ps| => ps[i].(debit := s.debits[i], credit := s.credits[i]))
  }

  lemma AllocatedLines(ps: seq<Posting>, s: SideShares)
    requires forall p | p in ps :: p.basis == Accrual && p.scope == ps[0].scope
    requires |s.debits| == |ps| && |s.credits| == |ps| && NonNegative(s.debits) && NonNegative(s.credits)
    ensures var qs := AllocatedJournal(ps, s);
            && Debits(qs) == s.debits && Credits(qs) == s.credits
            && forall q | q in qs :: q.basis == Accrual && q.scope == ps[0].scope && q.debit >= 0 && q.credit >= 0
  {
    hide Debits, Credits;
    var qs := AllocatedJournal(ps, s);
    forall q | q in qs
      ensures q.basis == Accrual && q.scope == ps[0].scope && q.debit >= 0 && q.credit >= 0
    {
      var i :| 0 <= i < |qs| && qs[i] == q;
      assert ps[i] in ps;
    }
  }

  lemma AllocatedIsJournal(ps: seq<Posting>, controlAccount: Option<nat>, t: ApplicationType, applied: int,
                           s: SideShares)
    requires Journal(ps, controlAccount, t) && applied > 0 && Carries(ps, controlAccount, t, applied, s)
    ensures var qs := AllocatedJournal(ps, s);
            Journal(qs, controlAccount, t) && Capacity(qs, controlAccount, t) == applied
            && Debits(qs) == s.debits && Credits(qs) == s.credits
  {
    hide Sum, WithinHalfCent, Debits, Credits, Positions, AllocatedJournal, HasControl;
    var qs := AllocatedJournal(ps, s);
    AllocatedLines(ps, s);
    assert qs[0] in qs;
    if controlAccount.Some? {
      AllocatedControl(ps, controlAccount.value, t, applied, s);
      ControlMakesTotal(qs, controlAccount.value, t);
    }
  }

  /** The control line of the allocated journal carries exactly the applied amount. */
  lemma AllocatedControl(ps: seq<Posting>, account: nat, t: ApplicationType, applied: int, s: SideShares)
    requires Journal(ps, Some(account), t) && applied > 0 && Carries(ps, Some(account), t, applied, s)
    ensures var qs := AllocatedJournal(ps, s);
            && Positions(qs, account, 0) == Positions(ps, account, 0)
            && HasControl(qs, account, t) && Own(qs, t)[Positions(qs, account, 0)[0]] == applied
  {
    hide Sum, WithinHalfCent, Debits, Credits, Positions;
    SamePositions(ps, AllocatedJournal(ps, s), account, 0);
  }

  /** Projecting the exact original allocation once more reproduces it. */
  lemma AllocationReproduced(ps: seq<Posting>, controlAccount: Option<nat>, t: ApplicationType, applied: int)
    requires Journal(ps, controlAccount, t) && 0 < applied <= Capacity(ps, controlAccount, t)
    ensures var s := LineShares(ps, controlAccount, t, applied);
            s.Ok? && LineShares(AllocatedJournal(ps, s.value), controlAccount, t, applied) == s
  {
    hide Journal, Capacity, LineShares, Debits, Credits, Positions;
    ApplicationRecognises(ps, controlAccount, t, applied);
    var s := LineShares(ps, controlAccount, t, applied).value;
    AllocatedIsJournal(ps, controlAccount, t, applied, s);
    ApplicationRecognises(AllocatedJournal(ps, s), controlAccount, t, applied);
  }

  /** Rows that cancel: the same line and account, debit against credit. */
  ghost predicate Cancels(a: seq<Projected>, b: seq<Projected>) {
    && |a| == |b|
    && forall i | 0 <= i < |a| ::
         a[i].origin == b[i].origin && a[i].account == b[i].account && a[i].debit == b[i].credit
           && a[i].credit == b[i].debit
  }

  lemma {:induction false} EmitCancels(ps: seq<Posting>, qs: seq<Posting>, s: SideShares)
    requires |s.debits| == |ps| && |s.credits| == |ps| && |qs| == |ps|
    requires forall i | 0 <= i < |ps| :: ps[i].id == qs[i].id && ps[i].account == qs[i].account
    ensures Cancels(Emit(ps, s, Recognize), Emit(qs, s, Reverse))
    decreases ps
  {
    if ps != [] {
      EmitCancels(ps[1..], qs[1..], SideShares(s.debits[1..], s.credits[1..]));
    }
  }

  /** A reversal of the exact original allocation cancels the recognition line by line. */
  lemma ReversalCancels(ps: seq<Posting>, controlAccount: Option<nat>, t: ApplicationType, applied: int)
    requires Journal(ps, controlAccount, t) && 0 < applied <= Capacity(ps, controlAccount, t)
    ensures var s := LineShares(ps, controlAccount, t, applied);
            && s.Ok?
            && var recognised := Projection(ps, controlAccount, t, Recognize, applied);
               var reversed := Projection(AllocatedJournal(ps, s.value), controlAccount, t, Reverse, applied);
               recognised.Ok? && reversed.Ok? && Cancels(recognised.value, reversed.value)
  {
    hide LineShares;
    AllocationReproduced(ps, controlAccount, t, applied);
    var s := LineShares(ps, controlAccount, t, applied).value;
    EmitCancels(ps, AllocatedJournal(ps, s), s);
  }

  /** The rows carry all of the shares: each line's share appears once, and zero lines are left out. */
  lemma {:induction false} RowsCarryShares(ps: seq<Posting>, s: SideShares)
    requires |s.debits| == |ps| && |s.credits| == |ps|
    ensures var rows := Emit(ps, s, Recognize);
            && Sum(RowDebits(rows)) == Sum(s.debits) && Sum(RowCredits(rows)) == Sum(s.credits)
            && (forall r | r in rows ::
                  exists i :: 0 <= i < |ps| && r == Projected(ps[i].id, ps[i].account, s.debits[i], s.credits[i]))
            && (forall i | 0 <= i < |ps| && (s.debits[i] != 0 || s.credits[i] != 0) ::
                  Projected(ps[i].id, ps[i].account, s.debits[i], s.credits[i]) in rows)
            && (forall r | r in rows :: r.debit != 0 || r.credit != 0)
    decreases ps
  {
    if ps != [] {
      var tail := SideShares(s.debits[1..], s.credits[1..]);
      RowsCarryShares(ps[1..], tail);
      var rest, rows := Emit(ps[1..], tail, Recognize), Emit(ps, s, Recognize);
      var first := Projected(ps[0].id, ps[0].account, s.debits[0], s.credits[0]);
      assert rows == rest || (rows == [first] + rest && rows[1..] == rest);
      forall r | r in rows
        ensures exists i :: 0 <= i < |ps| && r == Projected(ps[i].id, ps[i].account, s.debits[i], s.credits[i])
      {
        if r in rest {
          var i :| 0 <= i < |ps[1..]|
            && r == Projected(ps[1..][i].id, ps[1..][i].account, tail.debits[i], tail.credits[i]);
          assert r == Projected(ps[i + 1].id, ps[i + 1].account, s.debits[i + 1], s.credits[i + 1]);
        } else {
          assert r == first;
        }
      }
      forall i | 0 <= i < |ps| && (s.debits[i] != 0 || s.credits[i] != 0)
        ensures Projected(ps[i].id, ps[i].account, s.debits[i], s.credits[i]) in rows
      {
        if i > 0 {
          assert Projected(ps[1..][i - 1].id, ps[1..][i - 1].account, tail.debits[i - 1], tail.credits[i - 1]) in rest;
        }
      }
    }
  }

  function RowDebits(rows: seq<Projected>): seq<int> {
    if rows == [] then [] else [rows[0].debit] + RowDebits(rows[1..])
  }

  function RowCredits(rows: seq<Projected>): seq<int> {
    if rows == [] then [] else [rows[0].credit] + RowCredits(rows[1..])
  }

  /** Units left over after truncation that the positive amounts can absorb one by one. */
  ghost predicate ResidualFits(amounts: seq<int>, target: int, total: int)
    requires total > 0
  {
    0 <= Residual(amounts, target, total) <= CountPositive(amounts)
  }

  /** Without a control account the source does not reject negative lines. For any accepted journal, the
      projection recognises the applied amount on both sides exactly when both residuals fit. */
  lemma UncontrolledExactIff(ps: seq<Posting>, t: ApplicationType, applied: int)
    requires LineShares(ps, None, t, applied).Ok?
    ensures Sum(Debits(ps)) > 0
    ensures var s := LineShares(ps, None, t, applied).value;
            Sum(s.debits) == applied == Sum(s.credits)
            <==> (ResidualFits(Debits(ps), applied, Sum(Debits(ps)))
                  && ResidualFits(Credits(ps), applied, Sum(Debits(ps))))
  {
    hide Sum, Residual, Allocation;
    var total := Sum(Debits(ps));
    SumIffResidualFits(Debits(ps), applied, total);
    SumIffResidualFits(Credits(ps), applied, total);
  }

  lemma UncontrolledValue(ps: seq<Posting>, t: ApplicationType, applied: int, debits: seq<int>, credits: seq<int>)
    requires ps != [] && (forall p | p in ps :: p.basis == Accrual && p.scope == ps[0].scope)
    requires Debits(ps) == debits && Credits(ps) == credits && 0 < applied <= Sum(debits) == Sum(credits)
    ensures LineShares(ps, None, t, applied)
            == Ok(SideShares(Allocation(debits, applied, Sum(debits)), Allocation(credits, applied, Sum(debits))))
  {
    hide Sum, Allocation;
  }

  lemma SumOfFour(a: int, b: int, c: int, d: int)
    ensures Sum([a, b, c, d]) == a + b + c + d
  {
    assert Sum([d]) == d;
    assert [c, d][1..] == [d] && Sum([c, d]) == c + d;
    assert [b, c, d][1..] == [c, d] && Sum([b, c, d]) == b + c + d;
    assert [a, b, c, d][1..] == [b, c, d];
  }

  /** A journal with negative lines, on which the projection recognises the wrong amount of debits. */
  function NegativeLines(): seq<Posting> {
    [Posting(1, 0, Accrual, 10, -1, 0), Posting(2, 0, Accrual, 11, -1, 0), Posting(3, 0, Accrual, 12, 4, 0),
     Posting(4, 0, Accrual, 13, 0, 2)]
  }

  lemma NegativeSum()
    ensures Sum(Allocation([-1, -1, 4, 0], 1, 2)) != 1
  {
    hide Allocation;
    assert Floors(LargestRemainder.Shares([-1, -1, 4, 0], 1, 2, 0)) == [0, 0, 2, 0];
    SumOfFour(0, 0, 2, 0);
    SumIffResidualFits([-1, -1, 4, 0], 1, 2);
  }

  lemma NegativeLinesUnbalance()
    ensures var s := LineShares(NegativeLines(), None, CustomerPaymentToInvoice, 1);
            s.Ok? && Sum(s.value.debits) != 1
  {
    hide LineShares, Allocation, Sum;
    var ps := NegativeLines();
    assert Debits(ps) == [-1, -1, 4, 0] && Credits(ps) == [0, 0, 0, 2];
    SumOfFour(-1, -1, 4, 0);
    SumOfFour(0, 0, 0, 2);
    UncontrolledValue(ps, CustomerPaymentToInvoice, 1, [-1, -1, 4, 0], [0, 0, 0, 2]);
    NegativeSum();
  }
}
