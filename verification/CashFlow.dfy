/** The cash-flow summary as a function of postings, account roles and payment documents
    (src/cash-flow-summary.ts). Amounts are cents, dates ordered integers. */
module CashFlow {
  import opened Wrappers
  import opened Sums

  datatype Activity = Operating | Investing | Financing

  datatype Role = Cash | Flow(activity: Activity)

  /** A posting of the book up to the period's end; `tx` stands for its source and transaction. */
  datatype Posting = Posting(tx: nat, date: int, debit: int, credit: int, net: int, role: Option<Role>)

  /** A customer receipt or refund that a cash transaction belongs to. */
  datatype Receipt = Receipt(activity: Option<Activity>, amount: int, sign: int)

  datatype Split = Split(operating: int, investing: int, financing: int)

  /** The clearing allocations of a bill payment, summed. */
  datatype Payments = Payments(valid: bool, applied: int, split: Split)

  /** A bill payment that a cash transaction belongs to, with its latest purpose correction. */
  datatype Native = Native(sign: int, amount: int, controlsValid: bool, correction: Option<Split>,
                           payments: Option<Payments>)

  datatype Documents = Documents(receipts: seq<Receipt>, natives: seq<Native>)

  datatype Category = Single(activity: Activity) | Allocated | Transfer | Unclassified

  function Total(s: Split): int {
    s.operating + s.investing + s.financing
  }

  // ---- transactions ----

  /** The net amount of the postings that meet a condition. */
  function NetWhere(ps: seq<Posting>, keep: Posting -> bool): int {
    if ps == [] then 0
    else NetWhere(ps[..|ps| - 1], keep) + if keep(ps[|ps| - 1]) then ps[|ps| - 1].net else 0
  }

  predicate IsCash(p: Posting) {
    p.role == Some(Cash)
  }

  predicate Moves(p: Posting) {
    p.debit != 0 || p.credit != 0
  }

  predicate InTransaction(p: Posting, start: int, t: nat) {
    p.date >= start && p.tx == t
  }

  /** The postings of one transaction in the period, in ledger order. */
  function Lines(ps: seq<Posting>, start: int, t: nat): seq<Posting> {
    if ps == [] then []
    else Lines(ps[..|ps| - 1], start, t) + if InTransaction(ps[|ps| - 1], start, t) then [ps[|ps| - 1]] else []
  }

  /** The transactions of the period that have a cash posting. */
  function Transactions(ps: seq<Posting>, start: int): set<nat> {
    set p | p in ps && p.date >= start && IsCash(p) :: p.tx
  }

  function CashNet(lines: seq<Posting>): int {
    NetWhere(lines, p => IsCash(p))
  }

  function Net(lines: seq<Posting>): int {
    NetWhere(lines, p => true)
  }

  function Movement(lines: seq<Posting>, a: Activity): int {
    -NetWhere(lines, (p: Posting) => p.role == Some(Flow(a)))
  }

  function Movements(lines: seq<Posting>): Split {
    Split(Movement(lines, Operating), Movement(lines, Investing), Movement(lines, Financing))
  }

  function CountWhere(ps: seq<Posting>, keep: Posting -> bool): nat {
    if ps == [] then 0 else CountWhere(ps[..|ps| - 1], keep) + if keep(ps[|ps| - 1]) then 1 else 0
  }

  function CashCount(lines: seq<Posting>): nat {
    CountWhere(lines, p => IsCash(p))
  }

  function CounterpartCount(lines: seq<Posting>): nat {
    CountWhere(lines, p => !IsCash(p) && Moves(p))
  }

  /** The activities of the counterpart lines that move an amount. */
  function Activities(lines: seq<Posting>): set<Activity> {
    set p | p in lines && p.role.Some? && p.role.value.Flow? && Moves(p) :: p.role.value.activity
  }

  predicate HasUnknown(lines: seq<Posting>) {
    exists p | p in lines :: p.role.None? && Moves(p)
  }

  /** Every counterpart line's net amount is on the other side of the cash movement. */
  predicate OneSided(lines: seq<Posting>) {
    || (CashNet(lines) < 0 && forall p | p in lines && !IsCash(p) :: p.net >= 0)
    || (CashNet(lines) > 0 && forall p | p in lines && !IsCash(p) :: p.net <= 0)
  }

  // ---- classification ----

  /** The document row that one result row of a transaction is classified with. */
  datatype Owner = Owner(receipt: Option<Receipt>, native: Option<Native>)

  function OnlyActivity(activities: set<Activity>): Activity {
    if Financing in activities then Financing else if Investing in activities then Investing else Operating
  }

  function Classify(lines: seq<Posting>, o: Owner): Category {
    if Net(lines) != 0 then Unclassified
    else if o.receipt.Some? then
      var r := o.receipt.value;
      if r.activity.Some? && CashNet(lines) == r.sign * r.amount && CashCount(lines) == 1
        && CounterpartCount(lines) == 1
      then Single(r.activity.value) else Unclassified
    else if o.native.Some? && o.native.value.correction.Some? then
      var n := o.native.value;
      if CashNet(lines) == n.sign * n.amount && n.controlsValid && Total(n.correction.value) == n.amount
      then Allocated else Unclassified
    else if o.native.Some? then
      var n := o.native.value;
      if n.payments.Some? && n.payments.value.valid && CashNet(lines) == n.sign * n.amount
         && n.payments.value.applied == n.amount && -n.sign * Total(n.payments.value.split) == CashNet(lines)
         && n.controlsValid
      then Allocated else Unclassified
    else if CounterpartCount(lines) == 0 && CashNet(lines) == 0 then Transfer
    else if !HasUnknown(lines) && |Activities(lines)| == 1 then Single(OnlyActivity(Activities(lines)))
    else if !HasUnknown(lines) && |Activities(lines)| > 1 && OneSided(lines) then Allocated
    else Unclassified
  }

  function Scaled(k: int, s: Split): Split {
    Split(k * s.operating, k * s.investing, k * s.financing)
  }

  /** The amounts by which an allocated transaction enters the three activities. */
  function Resolved(lines: seq<Posting>, o: Owner): Split {
    if o.native.Some? && o.native.value.correction.Some?
    then Scaled(o.native.value.sign, o.native.value.correction.value)
    else if o.native.Some? && o.native.value.payments.Some?
    then Scaled(-o.native.value.sign, o.native.value.payments.value.split)
    else Movements(lines)
  }

  datatype Flows = Flows(operating: int, investing: int, financing: int, unclassified: int, net: int)

  function Contribution(lines: seq<Posting>, o: Owner): Flows {
    var cash := CashNet(lines);
    match Classify(lines, o)
    case Single(Operating) => Flows(cash, 0, 0, 0, cash)
    case Single(Investing) => Flows(0, cash, 0, 0, cash)
    case Single(Financing) => Flows(0, 0, cash, 0, cash)
    case Allocated => var s := Resolved(lines, o); Flows(s.operating, s.investing, s.financing, 0, cash)
    case Transfer => Flows(0, 0, 0, 0, cash)
    case Unclassified => Flows(0, 0, 0, cash, cash)
  }

  // ---- the summary ----

  function Plus(a: Flows, b: Flows): Flows {
    Flows(a.operating + b.operating, a.investing + b.investing, a.financing + b.financing,
          a.unclassified + b.unclassified, a.net + b.net)
  }

  const NOTHING := Flows(0, 0, 0, 0, 0)

  /** A left join gives one result row per owning document, or one without. */
  function Owners(d: Documents): seq<Owner> {
    if d.receipts == [] && d.natives == [] then [Owner(None, None)]
    else if d.receipts == [] then seq(|d.natives|, i requires 0 <= i < |d.natives| => Owner(None, Some(d.natives[i])))
    else if d.natives == [] then seq(|d.receipts|, i requires 0 <= i < |d.receipts| => Owner(Some(d.receipts[i]), None))
    else Crossed(d.receipts, d.natives)
  }

  function Crossed(rs: seq<Receipt>, ns: seq<Native>): seq<Owner> {
    if rs == [] then []
    else Crossed(rs[..|rs| - 1], ns) + seq(|ns|, i requires 0 <= i < |ns| => Owner(Some(rs[|rs| - 1]), Some(ns[i])))
  }

  function RowsTotal(lines: seq<Posting>, owners: seq<Owner>): Flows {
    if owners == [] then NOTHING
    else Plus(RowsTotal(lines, owners[..|owners| - 1]), Contribution(lines, owners[|owners| - 1]))
  }

  function DocumentsOf(documents: map<nat, Documents>, t: nat): Documents {
    if t in documents then documents[t] else Documents([], [])
  }

  function TransactionFlows(ps: seq<Posting>, start: int, documents: map<nat, Documents>, t: nat): Flows {
    RowsTotal(Lines(ps, start, t), Owners(DocumentsOf(documents, t)))
  }

  ghost function PeriodFlow(ps: seq<Posting>, start: int, documents: map<nat, Documents>, part: Flows -> int): int {
    SumOver(Transactions(ps, start), (t: nat) => part(TransactionFlows(ps, start, documents, t)))
  }

  /** Some cash transaction of the period is owned by two documents of a kind. */
  predicate Ambiguous(ps: seq<Posting>, start: int, documents: map<nat, Documents>) {
    exists t | t in Transactions(ps, start) ::
      |DocumentsOf(documents, t).receipts| > 1 || |DocumentsOf(documents, t).natives| > 1
  }

  datatype Summary = Summary(beginning: int, ending: int, flows: Flows)

  datatype Refusal = AmbiguousOwnership | DoesNotReconcile

  ghost function Totals(ps: seq<Posting>, start: int, documents: map<nat, Documents>): Summary {
    Summary(
      NetWhere(ps, p => IsCash(p) && p.date < start),
      NetWhere(ps, p => IsCash(p)),
      Flows(
        PeriodFlow(ps, start, documents, (f: Flows) => f.operating),
        PeriodFlow(ps, start, documents, (f: Flows) => f.investing),
        PeriodFlow(ps, start, documents, (f: Flows) => f.financing),
        PeriodFlow(ps, start, documents, (f: Flows) => f.unclassified),
        PeriodFlow(ps, start, documents, (f: Flows) => f.net)))
  }

  ghost predicate Reconciles(s: Summary) {
    && s.beginning + s.flows.net == s.ending
    && s.flows.operating + s.flows.investing + s.flows.financing + s.flows.unclassified == s.flows.net
  }

  ghost function ReadCashFlowSummary(ps: seq<Posting>, start: int,
                                     documents: map<nat, Documents>): Result<Summary, Refusal>
  {
    var s := Totals(ps, start, documents);
    if Ambiguous(ps, start, documents) then Err(AmbiguousOwnership)
    else if !Reconciles(s) then Err(DoesNotReconcile)
    else Ok(s)
  }
}
