/** Which side of the journal an application is measured on: the receivable is a debit, the payable of a bill a credit
    (src/accounting-basis-projection.ts). */
module CashBasisControl {
  import opened CashBasis
  import opened Sums
  import opened Wrappers

  /** A balanced, non-negative accrual journal of one scope in which exactly line `k` is on the account. */
  ghost predicate ControlledBy(ps: seq<Posting>, account: nat, k: nat) {
    && k < |ps|
    && (forall i | 0 <= i < |ps| :: ps[i].account == account <==> i == k)
    && (forall p | p in ps :: p.basis == Accrual && p.scope == ps[0].scope && p.debit >= 0 && p.credit >= 0)
    && Sum(Debits(ps)) == Sum(Credits(ps))
  }

  lemma {:induction false} OnlyPosition(ps: seq<Posting>, account: nat, k: nat, from: nat)
    requires k < |ps| && from <= |ps| && forall i | 0 <= i < |ps| :: ps[i].account == account <==> i == k
    ensures Positions(ps, account, from) == if from <= k then [k] else []
    decreases |ps| - from
  {
    if from < |ps| { OnlyPosition(ps, account, k, from + 1); }
  }

  lemma TotalsCoverLine(ps: seq<Posting>, k: nat)
    requires k < |ps| && forall p | p in ps :: p.debit >= 0 && p.credit >= 0
    ensures Sum(Debits(ps)) >= ps[k].debit && Sum(Credits(ps)) >= ps[k].credit
  {
    hide Sum, Debits, Credits;
    JournalNonNegative(ps);
    PartOfSum(Debits(ps), k);
    PartOfSum(Credits(ps), k);
  }

  /** Customer payments and refunds are measured on the debit of the control line. */
  lemma CustomerControlIsDebit(ps: seq<Posting>, account: nat, k: nat, t: ApplicationType, applied: int)
    requires ControlledBy(ps, account, k) && (t == CustomerPaymentToInvoice || t == CustomerRefundAgainstInvoice)
    ensures var r := LineShares(ps, Some(account), t, applied);
            && (r.Ok? <==> ps[k].debit > 0 && ps[k].credit == 0 && 0 < applied <= ps[k].debit)
            && (r.Ok? ==> r.value.debits[k] == applied && r.value.credits[k] == 0)
  {
    hide Sum, Debits, Credits, LineShares, Positions;
    OnlyPosition(ps, account, k, 0);
    TotalsCoverLine(ps, k);
    assert ps[k] in ps;
    AcceptedWithinCapacity(ps, Some(account), t, applied);
    if LineShares(ps, Some(account), t, applied).Ok? { ApplicationRecognises(ps, Some(account), t, applied); }
  }

  /** Bill payments are measured on the credit of the control line. */
  lemma BillControlIsCredit(ps: seq<Posting>, account: nat, k: nat, applied: int)
    requires ControlledBy(ps, account, k)
    ensures var r := LineShares(ps, Some(account), BillPaymentToBill, applied);
            && (r.Ok? <==> ps[k].credit > 0 && ps[k].debit == 0 && 0 < applied <= ps[k].credit)
            && (r.Ok? ==> r.value.credits[k] == applied && r.value.debits[k] == 0)
  {
    hide Sum, Debits, Credits, LineShares, Positions;
    OnlyPosition(ps, account, k, 0);
    TotalsCoverLine(ps, k);
    assert ps[k] in ps;
    AcceptedWithinCapacity(ps, Some(account), BillPaymentToBill, applied);
    if LineShares(ps, Some(account), BillPaymentToBill, applied).Ok? {
      ApplicationRecognises(ps, Some(account), BillPaymentToBill, applied);
    }
  }
}
