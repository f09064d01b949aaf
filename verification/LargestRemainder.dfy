/** Proportional allocation of whole cents by largest remainder (src/accounting-basis-projection.ts, allocate). */
module LargestRemainder {
  import opened Sums
  import opened Orders

  /** Big-integer division: it truncates toward zero and the remainder keeps the dividend's sign. */
  function Quotient(a: int, b: int): int
    requires b > 0
  {
    if a >= 0 then a / b else -(-a / b)
  }

  function Remainder(a: int, b: int): int
    requires b > 0
  {
    a - b * Quotient(a, b)
  }

  datatype Share = Share(index: nat, floor: int, remainder: int)

  /** One share for every amount from position `from` on. */
  function Shares(amounts: seq<int>, target: int, total: int, from: nat): (r: seq<Share>)
    requires total > 0 && from <= |amounts|
    ensures |r| == |amounts| - from
    ensures forall i | 0 <= i < |r| ::
              r[i] == Share(from + i, Quotient(amounts[from + i] * target, total),
                            Remainder(amounts[from + i] * target, total))
    decreases |amounts| - from
  {
    if from == |amounts| then []
    else
      [Share(from, Quotient(amounts[from] * target, total), Remainder(amounts[from] * target, total))]
      + Shares(amounts, target, total, from + 1)
  }

  function Floors(shares: seq<Share>): (r: seq<int>)
    ensures |r| == |shares|
    ensures forall i | 0 <= i < |r| :: r[i] == shares[i].floor
  {
    if shares == [] then [] else [shares[0].floor] + Floors(shares[1..])
  }

  /** The order in which left-over units are handed out: larger remainders first, then earlier positions. */
  predicate Earlier(a: Share, b: Share) {
    a.remainder > b.remainder || (a.remainder == b.remainder && a.index <= b.index)
  }

  function InOrder(shares: seq<Share>): seq<Share> {
    SortBy(shares, (a: Share, b: Share) => Earlier(a, b))
  }

  ghost predicate IndexesWithin(order: seq<Share>, n: nat) {
    forall k | 0 <= k < |order| :: order[k].index < n
  }

  /** Hands out units along the order, one to each positive amount, until none is left. */
  function Bump(amounts: seq<int>, floors: seq<int>, order: seq<Share>, remaining: int): (r: seq<int>)
    requires |floors| == |amounts| && IndexesWithin(order, |amounts|)
    ensures |r| == |amounts|
    decreases order
  {
    if order == [] || remaining == 0 then floors
    else
      var i := order[0].index;
      assert IndexesWithin(order[1..], |amounts|);
      if amounts[i] > 0 then Bump(amounts, floors[i := floors[i] + 1], order[1..], remaining - 1)
      else Bump(amounts, floors, order[1..], remaining)
  }

  lemma InOrderKeeps(shares: seq<Share>)
    ensures forall x :: x in InOrder(shares) <==> x in shares
  {
    SameElements(InOrder(shares), shares);
  }

  lemma OrderWithin(amounts: seq<int>, target: int, total: int)
    requires total > 0
    ensures IndexesWithin(InOrder(Shares(amounts, target, total, 0)), |amounts|)
  {
    var shares := Shares(amounts, target, total, 0);
    InOrderKeeps(shares);
    forall k | 0 <= k < |InOrder(shares)| ensures InOrder(shares)[k].index < |amounts| {
      assert InOrder(shares)[k] in shares;
    }
  }

  function Residual(amounts: seq<int>, target: int, total: int): int
    requires total > 0
  {
    target - Sum(Floors(Shares(amounts, target, total, 0)))
  }

  function Allocation(amounts: seq<int>, target: int, total: int): (r: seq<int>)
    requires total > 0
    ensures |r| == |amounts|
  {
    OrderWithin(amounts, target, total);
    var shares := Shares(amounts, target, total, 0);
    Bump(amounts, Floors(shares), InOrder(shares), Residual(amounts, target, total))
  }

  /** The loop of the source: floors first, then one unit at a time along the order. */
  method Allocate(amounts: seq<int>, target: int, total: int) returns (result: seq<int>)
    requires total > 0
    ensures result == Allocation(amounts, target, total)
  {
    hide Quotient, Remainder, InOrder, Sum;
    OrderWithin(amounts, target, total);
    var shares := Shares(amounts, target, total, 0);
    var order := InOrder(shares);
    var remaining := target - Sum(Floors(shares));
    result := Floors(shares);
    var k := 0;
    while k < |order| && remaining != 0
      invariant 0 <= k <= |order|
      invariant |result| == |amounts|
      invariant IndexesWithin(order[k..], |amounts|)
      invariant Bump(amounts, result, order[k..], remaining) == Allocation(amounts, target, total)
    {
      var share := order[k];
      assert order[k..][0] == share && order[k..][1..] == order[k + 1..];
      if amounts[share.index] > 0 {
        result := result[share.index := result[share.index] + 1];
        remaining := remaining - 1;
      }
      k := k + 1;
    }
  }

  // ---- how many units are handed out, for any amounts ----

  function CountPositive(amounts: seq<int>): nat {
    if amounts == [] then 0 else (if amounts[0] > 0 then 1 else 0) + CountPositive(amounts[1..])
  }

  function Eligible(amounts: seq<int>, order: seq<Share>): nat
    requires IndexesWithin(order, |amounts|)
  {
    if order == [] then 0
    else
      assert IndexesWithin(order[1..], |amounts|);
      (if amounts[order[0].index] > 0 then 1 else 0) + Eligible(amounts, order[1..])
  }

  lemma {:induction false} InsertEligible(amounts: seq<int>, x: Share, order: seq<Share>)
    requires IndexesWithin(order, |amounts|) && x.index < |amounts|
    ensures var r := Insert(x, order, (a: Share, b: Share) => Earlier(a, b));
            IndexesWithin(r, |amounts|)
            && Eligible(amounts, r) == (if amounts[x.index] > 0 then 1 else 0) + Eligible(amounts, order)
  {
    if order == [] || Earlier(x, order[0]) {
      assert ([x] + order)[1..] == order;
    } else {
      assert IndexesWithin(order[1..], |amounts|);
      InsertEligible(amounts, x, order[1..]);
      var rest := Insert(x, order[1..], (a: Share, b: Share) => Earlier(a, b));
      assert ([order[0]] + rest)[1..] == rest;
    }
  }

  lemma InOrderStep(shares: seq<Share>)
    ensures InOrder(shares)
            == if shares == [] then []
               else Insert(shares[0], InOrder(shares[1..]), (a: Share, b: Share) => Earlier(a, b))
  {
  }

  lemma {:induction false} EligibleIsCount(amounts: seq<int>, target: int, total: int, from: nat)
    requires total > 0 && from <= |amounts|
    ensures var order := InOrder(Shares(amounts, target, total, from));
            IndexesWithin(order, |amounts|) && Eligible(amounts, order) == CountPositive(amounts[from..])
    decreases |amounts| - from
  {
    hide Quotient, Remainder, InOrder;
    var shares := Shares(amounts, target, total, from);
    InOrderStep(shares);
    if from < |amounts| {
      EligibleIsCount(amounts, target, total, from + 1);
      assert shares[1..] == Shares(amounts, target, total, from + 1);
      InsertEligible(amounts, shares[0], InOrder(shares[1..]));
      assert amounts[from..][1..] == amounts[from + 1..];
    }
  }

  lemma {:induction false} BumpSum(amounts: seq<int>, floors: seq<int>, order: seq<Share>, remaining: int)
    requires |floors| == |amounts| && IndexesWithin(order, |amounts|)
    ensures var n := Eligible(amounts, order);
            Sum(Bump(amounts, floors, order, remaining))
            == Sum(floors) + (if 0 <= remaining <= n then remaining else n)
    decreases order
  {
    if order != [] && remaining != 0 {
      var i := order[0].index;
      assert IndexesWithin(order[1..], |amounts|);
      if amounts[i] > 0 {
        SumUpdate(floors, i, floors[i] + 1);
        BumpSum(amounts, floors[i := floors[i] + 1], order[1..], remaining - 1);
      } else {
        BumpSum(amounts, floors, order[1..], remaining);
      }
    }
  }

  /** For any amounts at all, negative ones included, the allocation reaches its target exactly when
      the units left over after truncation are neither negative nor more than the positive amounts. */
  lemma SumIffResidualFits(amounts: seq<int>, target: int, total: int)
    requires total > 0
    ensures Sum(Allocation(amounts, target, total)) == target
            <==> 0 <= Residual(amounts, target, total) <= CountPositive(amounts)
  {
    var shares := Shares(amounts, target, total, 0);
    OrderWithin(amounts, target, total);
    EligibleIsCount(amounts, target, total, 0);
    assert amounts[0..] == amounts;
    BumpSum(amounts, Floors(shares), InOrder(shares), Residual(amounts, target, total));
  }

  // ---- non-negative amounts ----

  function SumRemainders(shares: seq<Share>): int {
    if shares == [] then 0 else shares[0].remainder + SumRemainders(shares[1..])
  }

  lemma {:induction false} InsertRemainders(x: Share, order: seq<Share>)
    ensures SumRemainders(Insert(x, order, (a: Share, b: Share) => Earlier(a, b))) == x.remainder + SumRemainders(order)
  {
    if order == [] || Earlier(x, order[0]) {
      assert ([x] + order)[1..] == order;
    } else {
      InsertRemainders(x, order[1..]);
      var rest := Insert(x, order[1..], (a: Share, b: Share) => Earlier(a, b));
      assert ([order[0]] + rest)[1..] == rest;
    }
  }

  lemma {:induction false} OrderRemainders(shares: seq<Share>)
    ensures SumRemainders(InOrder(shares)) == SumRemainders(shares)
  {
    if shares != [] {
      OrderRemainders(shares[1..]);
      InsertRemainders(shares[0], InOrder(shares[1..]));
    }
  }

  lemma Distribute(a: int, rest: int, target: int, total: int, f: int, g: int, r: int, q: int)
    requires a * target == total * f + r && rest * target == total * g + q
    ensures (a + rest) * target == total * (f + g) + (r + q)
  {
  }

  /** Floors and remainders together make up the whole exact product. */
  lemma {:induction false} RemaindersAddUp(amounts: seq<int>, target: int, total: int, from: nat)
    requires total > 0 && from <= |amounts|
    ensures var shares := Shares(amounts, target, total, from);
            Sum(amounts[from..]) * target == total * Sum(Floors(shares)) + SumRemainders(shares)
    decreases |amounts| - from
  {
    if from < |amounts| {
      RemaindersAddUp(amounts, target, total, from + 1);
      var shares := Shares(amounts, target, total, from);
      var rest := Shares(amounts, target, total, from + 1);
      assert shares == [shares[0]] + rest;
      assert Floors(shares) == [shares[0].floor] + Floors(rest);
      assert amounts[from..] == [amounts[from]] + amounts[from + 1..];
      Distribute(amounts[from], Sum(amounts[from + 1..]), target, total,
                 shares[0].floor, Sum(Floors(rest)), shares[0].remainder, SumRemainders(rest));
    }
  }

  /** Shares listed by position, with remainders of a division by `total`. */
  ghost predicate Listed(shares: seq<Share>, total: int) {
    forall k | 0 <= k < |shares| :: shares[k].index == k && 0 <= shares[k].remainder < total
  }

  ghost predicate RemaindersBelow(order: seq<Share>, total: int) {
    forall k | 0 <= k < |order| :: 0 <= order[k].remainder < total
  }

  lemma {:induction false} RemaindersBound(order: seq<Share>, k: nat, total: int)
    requires total > 0 && RemaindersBelow(order, total) && k <= |order|
    requires forall m | k <= m < |order| :: order[m].remainder == 0
    ensures 0 <= SumRemainders(order)
    ensures k == 0 ==> SumRemainders(order) == 0
    ensures k > 0 ==> SumRemainders(order) < k * total
    decreases order
  {
    if order != [] {
      RemaindersBound(order[1..], if k == 0 then 0 else k - 1, total);
      assert k > 0 ==> k * total == (k - 1) * total + total;
    }
  }

  lemma CompareProducts(a: int, b: int, total: int)
    requires total > 0
    ensures a * total < b * total <==> a < b
  {
  }

  /** The units left over all fall on positive remainders, which come first in the order. */
  lemma UnitsFallOnPositiveRemainders(order: seq<Share>, units: int, total: int)
    requires total > 0 && RemaindersBelow(order, total) && SumRemainders(order) == units * total
    requires forall i, j | 0 <= i < j < |order| :: Earlier(order[i], order[j])
    ensures 0 <= units <= |order|
    ensures forall m | 0 <= m < units :: order[m].remainder > 0
  {
    RemaindersBound(order, |order|, total);
    CompareProducts(units, 0, total);
    CompareProducts(units, |order|, total);
    forall m | 0 <= m < units
      ensures order[m].remainder > 0
    {
      if order[m].remainder <= 0 {
        forall n | m <= n < |order| ensures order[n].remainder == 0 {
          assert n == m || Earlier(order[m], order[n]);
        }
        RemaindersBound(order, m, total);
        CompareProducts(units, m, total);
      }
    }
  }

  lemma FloorFacts(a: int, target: int, total: int)
    requires a >= 0 && total > 0 && 0 <= target <= total
    ensures a * target >= 0
    ensures var q, r := a * target / total, a * target % total;
            0 <= q <= a && 0 <= r < total && (r > 0 ==> q < a)
            && q == Quotient(a * target, total) && r == Remainder(a * target, total)
  {
    var p := a * target;
    assert 0 <= p <= a * total;
    assert p == total * (p / total) + p % total;
    CompareProducts(a, p / total, total);
  }

  /** The order of listed shares: distinct, by decreasing remainder, holding exactly these shares. */
  lemma OrderFacts(shares: seq<Share>, total: int)
    requires Listed(shares, total)
    ensures var order := InOrder(shares);
            && |order| == |shares|
            && (forall i, j | 0 <= i < j < |order| :: Earlier(order[i], order[j]) && order[i].index != order[j].index)
            && (forall k | 0 <= k < |order| :: order[k].index < |shares| && order[k] == shares[order[k].index])
            && (forall k | 0 <= k < |shares| :: shares[k] in order)
            && RemaindersBelow(order, total)
            && SumRemainders(order) == SumRemainders(shares)
  {
    var order := InOrder(shares);
    var le := (a: Share, b: Share) => Earlier(a, b);
    SortBySorts(shares, le);
    SortByPermutes(shares, le);
    assert Distinct(shares) by {
      forall i, j | 0 <= i < j < |shares| ensures shares[i] != shares[j] { assert shares[i].index != shares[j].index; }
    }
    forall k | 0 <= k < |order|
      ensures order[k].index < |shares| && order[k] == shares[order[k].index]
    {
      assert order[k] in shares;
    }
    OrderRemainders(shares);
  }

  lemma {:induction false} BumpFirst(amounts: seq<int>, floors: seq<int>, order: seq<Share>, units: nat)
    requires |floors| == |amounts| && IndexesWithin(order, |amounts|) && units <= |order|
    requires forall i, j | 0 <= i < j < |order| :: order[i].index != order[j].index
    requires forall m | 0 <= m < units :: amounts[order[m].index] > 0
    ensures forall m | 0 <= m < |order| ::
              Bump(amounts, floors, order, units)[order[m].index]
                == floors[order[m].index] + (if m < units then 1 else 0)
    ensures forall i | 0 <= i < |amounts| && (forall m | 0 <= m < |order| :: order[m].index != i) ::
              Bump(amounts, floors, order, units)[i] == floors[i]
    decreases order
  {
    if order != [] && units > 0 {
      var i := order[0].index;
      var next, rest := floors[i := floors[i] + 1], order[1..];
      BumpFirst(amounts, next, rest, units - 1);
      var r := Bump(amounts, floors, order, units);
      assert r == Bump(amounts, next, rest, units - 1);
      forall m | 0 <= m < |order|
        ensures r[order[m].index] == floors[order[m].index] + (if m < units then 1 else 0)
      {
        if m > 0 { assert rest[m - 1] == order[m]; }
      }
      forall j | 0 <= j < |amounts| && (forall m | 0 <= m < |order| :: order[m].index != j)
        ensures r[j] == floors[j]
      {
        assert order[0].index != j;
        forall m | 0 <= m < |rest| ensures rest[m].index != j { assert rest[m] == order[m + 1]; }
      }
    }
  }

  /** The positions that are served before position i. */
  ghost function Ahead(shares: seq<Share>, i: int): set<int>
    requires 0 <= i < |shares|
  {
    set j | 0 <= j < |shares|
      && (shares[j].remainder > shares[i].remainder || (shares[j].remainder == shares[i].remainder && j < i))
  }

  lemma {:induction false} PrefixIndexes(order: seq<Share>, k: nat)
    requires k <= |order|
    requires forall i, j | 0 <= i < j < |order| :: order[i].index != order[j].index
    ensures |set m | 0 <= m < k :: order[m].index as int| == k
  {
    if k > 0 {
      PrefixIndexes(order, k - 1);
      var before := set m | 0 <= m < k - 1 :: order[m].index as int;
      assert (set m | 0 <= m < k :: order[m].index as int) == before + {order[k - 1].index as int};
      assert order[k - 1].index as int !in before;
    }
  }

  /** A position is ahead of another exactly when it is served before it. */
  lemma AheadIff(shares: seq<Share>, total: int, k: nat, m: nat)
    requires Listed(shares, total) && k < |shares| && m < |shares|
    ensures var order := InOrder(shares);
            && k < |order| && m < |order| && order[k].index < |shares|
            && (order[m].index in Ahead(shares, order[k].index) <==> m < k)
  {
    hide InOrder;
    OrderFacts(shares, total);
  }

  lemma AheadIsPosition(shares: seq<Share>, total: int, k: nat)
    requires Listed(shares, total) && k < |shares|
    ensures var order := InOrder(shares);
            k < |order| && order[k].index < |shares| && |Ahead(shares, order[k].index)| == k
  {
    hide InOrder;
    var order := InOrder(shares);
    OrderFacts(shares, total);
    PrefixIndexes(order, k);
    var before := set m | 0 <= m < k :: order[m].index as int;
    forall j ensures j in before <==> j in Ahead(shares, order[k].index) {
      if j in before {
        var m :| 0 <= m < k && order[m].index == j;
        AheadIff(shares, total, k, m);
      }
      if j in Ahead(shares, order[k].index) {
        assert shares[j] in order;
        var m :| 0 <= m < |order| && order[m] == shares[j];
        AheadIff(shares, total, k, m);
      }
    }
    assert before == Ahead(shares, order[k].index);
  }

  ghost predicate NonNegative(amounts: seq<int>) {
    forall i | 0 <= i < |amounts| :: amounts[i] >= 0
  }

  /** What the callers guarantee: non-negative amounts and a target of at most their total. */
  ghost predicate Allocatable(amounts: seq<int>, target: int, total: int) {
    NonNegative(amounts) && total > 0 && total == Sum(amounts) && 0 <= target <= total
  }

  lemma ListedShares(amounts: seq<int>, target: int, total: int)
    requires Allocatable(amounts, target, total)
    ensures var shares := Shares(amounts, target, total, 0);
            var units := Residual(amounts, target, total);
            && Listed(shares, total)
            && (forall k | 0 <= k < |shares| :: shares[k].remainder > 0 ==> amounts[k] > 0)
            && SumRemainders(shares) == units * total
  {
    var shares := Shares(amounts, target, total, 0);
    RemaindersAddUp(amounts, target, total, 0);
    assert amounts[0..] == amounts;
    Difference(target, Sum(Floors(shares)), total);
    forall k | 0 <= k < |shares|
      ensures 0 <= shares[k].remainder < total && (shares[k].remainder > 0 ==> amounts[k] > 0)
    {
      FloorFacts(amounts[k], target, total);
    }
  }

  lemma Difference(a: int, b: int, total: int)
    ensures (a - b) * total == total * a - total * b
  {
  }

  /** Handing out the units left over: exactly the positions with the fewest ahead of them get one. */
  lemma UnitsByRank(amounts: seq<int>, shares: seq<Share>, units: int, total: int, i: int)
    requires |shares| == |amounts| && total > 0 && Listed(shares, total) && SumRemainders(shares) == units * total
    requires forall k | 0 <= k < |shares| :: shares[k].remainder > 0 ==> amounts[k] > 0
    requires 0 <= i < |amounts|
    ensures var order := InOrder(shares);
            && IndexesWithin(order, |amounts|)
            && 0 <= units <= Eligible(amounts, order)
            && Bump(amounts, Floors(shares), order, units)[i]
               == shares[i].floor + (if |Ahead(shares, i)| < units then 1 else 0)
            && (|Ahead(shares, i)| < units ==> shares[i].remainder > 0)
  {
    var order := InOrder(shares);
    OrderFacts(shares, total);
    UnitsFallOnPositiveRemainders(order, units, total);
    BumpFirst(amounts, Floors(shares), order, units);
    EligibleAtLeast(amounts, order, units);
    assert shares[i] in order;
    var k :| 0 <= k < |order| && order[k] == shares[i];
    AheadIsPosition(shares, total, k);
  }

  /** Each share is the floor of its exact quota, plus one unit exactly for the positions with the
      largest remainders, earlier positions first: as many positions as there are units left over. */
  lemma ExtraUnitsToLargestRemainders(amounts: seq<int>, target: int, total: int, i: int)
    requires Allocatable(amounts, target, total) && 0 <= i < |amounts|
    ensures var extra := |Ahead(Shares(amounts, target, total, 0), i)| < Residual(amounts, target, total);
            && Allocation(amounts, target, total)[i] == amounts[i] * target / total + (if extra then 1 else 0)
            && (extra ==> amounts[i] * target % total > 0)
  {
    ListedShares(amounts, target, total);
    FloorFacts(amounts[i], target, total);
    UnitsByRank(amounts, Shares(amounts, target, total, 0), Residual(amounts, target, total), total, i);
  }

  /** What an allocation of non-negative amounts promises: the target exactly, and no more than each amount. */
  ghost predicate Splits(amounts: seq<int>, target: int, shares: seq<int>) {
    && |shares| == |amounts|
    && Sum(shares) == target
    && forall i | 0 <= i < |amounts| :: 0 <= shares[i] <= amounts[i]
  }

  lemma AllocationSplits(amounts: seq<int>, target: int, total: int)
    requires Allocatable(amounts, target, total)
    ensures Splits(amounts, target, Allocation(amounts, target, total))
  {
    var result := Allocation(amounts, target, total);
    forall i | 0 <= i < |amounts| ensures 0 <= result[i] <= amounts[i] {
      ExtraUnitsToLargestRemainders(amounts, target, total, i);
      FloorFacts(amounts[i], target, total);
    }
    ListedShares(amounts, target, total);
    EligibleIsCount(amounts, target, total, 0);
    assert amounts[0..] == amounts;
    if amounts != [] {
      UnitsByRank(amounts, Shares(amounts, target, total, 0), Residual(amounts, target, total), total, 0);
    }
    SumIffResidualFits(amounts, target, total);
  }

  lemma {:induction false} EligibleAtLeast(amounts: seq<int>, order: seq<Share>, units: nat)
    requires IndexesWithin(order, |amounts|) && units <= |order|
    requires forall m | 0 <= m < units :: amounts[order[m].index] > 0
    ensures units <= Eligible(amounts, order)
    decreases order
  {
    if order != [] && units > 0 {
      assert IndexesWithin(order[1..], |amounts|);
      EligibleAtLeast(amounts, order[1..], units - 1);
    }
  }

  /** A split of everything is everything, line by line. */
  lemma {:induction false} SplitOfAll(amounts: seq<int>, shares: seq<int>)
    requires Splits(amounts, Sum(amounts), shares)
    ensures shares == amounts
  {
    if amounts != [] {
      var lo, hi := shares[1..], amounts[1..];
      SplitBelow(hi, lo);
      assert Splits(hi, Sum(hi), lo);
      SplitOfAll(hi, lo);
      assert shares == [shares[0]] + lo && amounts == [amounts[0]] + hi;
    }
  }

  lemma {:induction false} SplitBelow(amounts: seq<int>, shares: seq<int>)
    requires |shares| == |amounts| && forall i | 0 <= i < |amounts| :: 0 <= shares[i] <= amounts[i]
    ensures 0 <= Sum(shares) <= Sum(amounts)
  {
    if amounts != [] { SplitBelow(amounts[1..], shares[1..]); }
  }
}
