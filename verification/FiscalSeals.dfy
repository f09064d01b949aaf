/** The exact condition under which a manual lock change keeps a close certificate true: which dates up to its end the
    new lock leaves to postings. */
module FiscalSeals {
  import opened Wrappers
  import opened FiscalPeriods
  import opened FiscalSafety

  predicate AfterLock(st: State, date: int) {
    LockOf(st).None? || date > LockOf(st).value
  }

  predicate InClosedPeriod(st: State, date: int) {
    exists id | id in st.periods :: st.periods[id].status == Closed && Covers(st.periods[id], date)
  }

  /** Every date up to `end` that the lock leaves open lies in a closed period. */
  ghost predicate Sealed(st: State, end: int) {
    forall d: int | d <= end && AfterLock(st, d) :: InClosedPeriod(st, d)
  }

  ghost predicate NoLockChanges(cs: seq<Command>) {
    forall c | c in cs :: !c.SetLock?
  }

  /** The certificate is not refuted by the ledger: while its close is current, no group of totals differs. */
  ghost predicate Unrefuted(st: State, id: nat) {
    id in st.certificates && (ClosedAtCapturedVersion(st, id) ==> CurrentDifferences(st, id) == {})
  }

  // ---- a sealed certificate stays true ----

  /** A certificate that holds, and whose dates are sealed for as long as its close is current. */
  ghost predicate Kept(st: State, c: Certificate) {
    && st.control.Some? && Holds(st, c)
    && (st.periods[c.period].version == c.version ==> Sealed(st, c.end))
  }

  /** The seal reads the periods and the lock date only. */
  lemma SealAside(st: State, end: int)
    ensures forall x: State | x.periods == st.periods && x.control == st.control :: Sealed(x, end) <==> Sealed(st, end)
  {
    forall x: State | x.periods == st.periods && x.control == st.control ensures Sealed(x, end) <==> Sealed(st, end) {
      forall d: int ensures AfterLock(x, d) == AfterLock(st, d) && InClosedPeriod(x, d) == InClosedPeriod(st, d) {}
    }
  }

  /** The gate lets nothing into a closed period, or up to the lock. */
  lemma AllowedIsOpen(st: State, date: int, closingAdjustment: bool)
    requires DateAllowed(st, date, closingAdjustment)
    ensures AfterLock(st, date) && !InClosedPeriod(st, date)
  {
  }

  lemma PostIsAfterSeal(st: State, c: Command, certificate: Certificate)
    requires c.Post? && Kept(st, certificate)
    ensures Kept(Next(st, c), certificate)
  {
    hide ControlTotals, DateAllowed, Sealed, AfterLock, InClosedPeriod;
    SealAside(Next(st, c), certificate.end);
    TotalsUnchangedIff(st.ledger, c.lines, certificate.start, certificate.end);
    if DateAllowed(st, c.date, c.closingAdjustment) {
      AllowedIsOpen(st, c.date, c.closingAdjustment);
      SealedDate(st, certificate.end, c.date);
    }
  }

  lemma SealedDate(st: State, end: int, date: int)
    ensures Sealed(st, end) && AfterLock(st, date) && !InClosedPeriod(st, date) ==> date > end
  {
  }

  /** Closing another period only adds sealed dates. */
  lemma ClosingKeepsSeal(st: State, id: PeriodId, key: EventKey, c: Command, end: int)
    requires id in st.periods && Sealed(st, end)
    ensures Sealed(ClosedState(st, id, key, c), end)
  {
    var next := ClosedState(st, id, key, c);
    forall d: int | d <= end && AfterLock(next, d) ensures InClosedPeriod(next, d) {
      assert AfterLock(st, d);
      var q :| q in st.periods && st.periods[q].status == Closed && Covers(st.periods[q], d);
      assert q in next.periods && next.periods[q].status == Closed && Covers(next.periods[q], d);
    }
  }

  lemma CloseKeeps(st: State, c: Command, certificate: Certificate)
    requires (c.ClosePeriod? || c.CloseCanonical?) && Kept(st, certificate)
    ensures Kept(Next(st, c), certificate)
  {
    hide ControlTotals, Sealed, Overlaps, DateAllowed;
    if c.id in st.periods && Sealed(st, certificate.end) {
      var closing := if c.ClosePeriod? then Close(c.id, c.expected) else CanonicalClose(c.key);
      ClosingKeepsSeal(st, c.id, closing, c, certificate.end);
    }
    SealAside(Next(st, c), certificate.end);
  }

  /** Reopening another period recomputes a lock that is still at or after the certificate's end. */
  lemma ReopenKeeps(st: State, c: Command, certificate: Certificate)
    requires c.ReopenPeriod? && Kept(st, certificate)
    ensures Kept(Next(st, c), certificate)
  {
    hide ControlTotals, LatestClosed;
    LatestClosedFacts(Next(st, c).periods);
  }

  lemma DefineOrBeginKeeps(st: State, c: Command, certificate: Certificate)
    requires (c.DefinePeriod? || c.BeginClosing?) && Kept(st, certificate)
    ensures Kept(Next(st, c), certificate)
  {
    hide ControlTotals, Overlaps;
    var next := Next(st, c);
    if Sealed(st, certificate.end) {
      forall d: int | d <= certificate.end && AfterLock(next, d) ensures InClosedPeriod(next, d) {
        assert AfterLock(st, d);
        var q :| q in st.periods && st.periods[q].status == Closed && Covers(st.periods[q], d);
        assert q in next.periods && next.periods[q] == st.periods[q];
      }
    }
  }

  lemma StepKeeps(st: State, c: Command, certificate: Certificate)
    requires Kept(st, certificate) && !c.SetLock?
    ensures Kept(Next(st, c), certificate)
  {
    hide Kept, Step, Next;
    match c
    case Post(_, _, _) => PostIsAfterSeal(st, c, certificate);
    case ClosePeriod(_, _, _, _) => CloseKeeps(st, c, certificate);
    case CloseCanonical(_, _, _, _, _) => CloseKeeps(st, c, certificate);
    case ReopenPeriod(_, _, _) => ReopenKeeps(st, c, certificate);
    case DefinePeriod(_, _, _, _) => DefineOrBeginKeeps(st, c, certificate);
    case BeginClosing(_, _, _) => DefineOrBeginKeeps(st, c, certificate);
  }

  /** Certificates are immutable. */
  lemma CertificateStays(st: State, c: Command, id: nat)
    requires id in st.certificates
    ensures id in Next(st, c).certificates && Next(st, c).certificates[id] == st.certificates[id]
  {
    hide ControlTotals, LatestClosed, Overlaps, DateAllowed;
  }

  lemma {:induction false} RunKeeps(st: State, cs: seq<Command>, id: nat)
    requires id in st.certificates && Kept(st, st.certificates[id]) && NoLockChanges(cs)
    ensures var after := Run(st, cs);
            id in after.certificates && after.certificates[id] == st.certificates[id]
              && Kept(after, st.certificates[id])
  {
    hide Kept, Next;
    if cs != [] {
      assert forall c | c in cs[..|cs| - 1] :: c in cs;
      assert cs[|cs| - 1] in cs;
      RunKeeps(st, cs[..|cs| - 1], id);
      StepKeeps(Run(st, cs[..|cs| - 1]), cs[|cs| - 1], st.certificates[id]);
      CertificateStays(Run(st, cs[..|cs| - 1]), cs[|cs| - 1], id);
    }
  }

  lemma KeptIsUnrefuted(st: State, id: nat)
    requires id in st.certificates && Kept(st, st.certificates[id])
    ensures Unrefuted(st, id)
  {
    var c := st.certificates[id];
    NoDifferencesIff(c.totals, ControlTotals(st.ledger, c.start, c.end));
  }

  // ---- an unsealed date refutes the certificate ----

  /** A fiscal year beyond every period and every event of the state. */
  lemma FreshYear(st: State) returns (year: nat)
    ensures year >= 1 && PeriodId(year, 1) !in st.periods && Defined(year, 1) !in st.events
  {
    var years := (set id | id in st.periods :: id.year) + (set k | k in st.events && k.Defined? :: k.year);
    year := Beyond(years);
    assert forall id | id in st.periods :: id.year in years;
    assert forall k | k in st.events && k.Defined? :: k.year in years;
  }

  lemma {:induction false} Beyond(ns: set<nat>) returns (n: nat)
    ensures n >= 1 && forall x | x in ns :: x < n
    decreases ns
  {
    n := 1;
    if ns != {} {
      var x :| x in ns;
      var rest := Beyond(ns - {x});
      n := if x < rest then rest else x + 1;
      assert forall y | y in ns :: y == x || y in ns - {x};
    }
  }

  /** A closing adjustment is let in on a date that some period covers, none of them closed. */
  lemma UnclosedIsAllowed(st: State, d: int, id: PeriodId)
    requires AfterLock(st, d) && !InClosedPeriod(st, d) && id in st.periods && Covers(st.periods[id], d)
    ensures DateAllowed(st, d, true)
  {
    forall q | q in st.periods && Covers(st.periods[q], d)
      ensures st.periods[q].status == Open || st.periods[q].status == Closing
    {
      assert st.periods[q].status != Closed;
    }
  }

  lemma DayDefined(st: State, d: int, id: PeriodId)
    requires id.year >= 1 && id.number == 1 && id !in st.periods && Defined(id.year, 1) !in st.events
    requires AfterLock(st, d) && forall q | q in st.periods :: !Covers(st.periods[q], d)
    ensures var next := Next(st, DefinePeriod(id, d, d, 0));
            && next.periods == st.periods[id := Period(d, d, Open, 1, None, None)]
            && next.certificates == st.certificates && next.ledger == st.ledger && AfterLock(next, d)
            && !InClosedPeriod(next, d)
  {
    assert !Overlaps(st.periods, d, d) by {
      assert forall q | q in st.periods :: !Covers(st.periods[q], d);
    }
  }

  /** A date that the lock leaves open and no closed period covers can be given a period that takes postings. */
  lemma OpenDate(st: State, d: int) returns (cs: seq<Command>)
    requires AfterLock(st, d) && !InClosedPeriod(st, d)
    ensures NoLockChanges(cs)
    ensures DateAllowed(Run(st, cs), d, true)
    ensures var after := Run(st, cs);
            after.certificates == st.certificates && after.ledger == st.ledger && forall id | id in st.periods ::
              id in after.periods && after.periods[id] == st.periods[id]
  {
    hide DateAllowed, InClosedPeriod, AfterLock, Next, Covers;
    if id :| id in st.periods && Covers(st.periods[id], d) {
      cs := [];
      UnclosedIsAllowed(st, d, id);
    } else {
      var year := FreshYear(st);
      var id := PeriodId(year, 1);
      var c := DefinePeriod(id, d, d, 0);
      cs := [c];
      assert cs[..0] == [];
      DayDefined(st, d, id);
      assert Covers(Next(st, c).periods[id], d) by { DayCovered(d); }
      UnclosedIsAllowed(Next(st, c), d, id);
    }
  }

  lemma DayCovered(d: int)
    ensures Covers(Period(d, d, Open, 1, None, None), d)
  {
  }

  /** Posting a line without amounts on such a date leaves the certificate current and wrong. */
  lemma UnsealedIsRefuted(st: State, id: nat, d: int) returns (cs: seq<Command>)
    requires id in st.certificates && ClosedAtCapturedVersion(st, id) && CurrentDifferences(st, id) == {}
    requires d <= st.certificates[id].end && AfterLock(st, d) && !InClosedPeriod(st, d)
    ensures NoLockChanges(cs) && !Unrefuted(Run(st, cs), id)
  {
    hide ControlTotals, DateAllowed;
    var opening := OpenDate(st, d);
    var open := Run(st, opening);
    var post := Post([Posting(d, Group(0, 0, 0), 0, 0)], d, true);
    cs := opening + [post];
    assert cs[..|cs| - 1] == opening;
    assert forall c | c in cs :: c in opening || c == post;
    PostingBreaksCertificateIff(open, post, id);
    PostLeavesCloses(open, post, id);
  }

  // ---- the exact condition ----

  lemma LockChangeKeepsCloses(st: State, c: Command, id: nat)
    requires c.SetLock? && Step(st, c).1.Ok? && id in st.certificates
    ensures var next := Next(st, c);
            && next.control.Some? && next.certificates == st.certificates && next.periods == st.periods
            && next.ledger == st.ledger
            && LockOf(next) == c.lock
  {
  }

  /** After an accepted manual lock change, a certificate that is current and true stays true in every continuation
      without another manual change exactly when every date up to its end that the new lock leaves open lies in a
      closed period. */
  lemma LockChangeKeepsCertificateIff(st: State, c: Command, id: nat)
    requires c.SetLock? && Step(st, c).1.Ok? && id in st.certificates
    requires Holds(st, st.certificates[id]) && ClosedAtCapturedVersion(st, id)
    ensures (forall cs: seq<Command> | NoLockChanges(cs) :: Unrefuted(Run(Next(st, c), cs), id))
            <==> Sealed(Next(st, c), st.certificates[id].end)
  {
    hide ControlTotals, Sealed, AfterLock, InClosedPeriod, Run, Unrefuted, Step, Next;
    var next := Next(st, c);
    var certificate := st.certificates[id];
    LockChangeKeepsCloses(st, c, id);
    if Sealed(next, certificate.end) {
      forall cs: seq<Command> | NoLockChanges(cs) ensures Unrefuted(Run(next, cs), id) {
        RunKeeps(next, cs, id);
        KeptIsUnrefuted(Run(next, cs), id);
      }
    } else {
      var d := UnsealedDate(next, certificate.end);
      NoDifferencesIff(certificate.totals, ControlTotals(next.ledger, certificate.start, certificate.end));
      var cs := UnsealedIsRefuted(next, id, d);
      assert NoLockChanges(cs) && !Unrefuted(Run(next, cs), id);
    }
  }

  lemma UnsealedDate(st: State, end: int) returns (d: int)
    requires !Sealed(st, end)
    ensures d <= end && AfterLock(st, d) && !InClosedPeriod(st, d)
  {
    d :| d <= end && AfterLock(st, d) && !InClosedPeriod(st, d);
  }

  // ---- whole runs ----

  /** A manual lock change after which every current certificate's dates are sealed. */
  ghost predicate Seals(st: State, c: Command) {
    c.SetLock? ==> forall id | id in st.certificates && ClosedAtCapturedVersion(st, id) ::
                     Sealed(Next(st, c), st.certificates[id].end)
  }

  ghost predicate SealingRun(st: State, cs: seq<Command>) {
    cs == [] || (SealingRun(st, cs[..|cs| - 1]) && Seals(Run(st, cs[..|cs| - 1]), cs[|cs| - 1]))
  }

  ghost predicate AllKept(st: State) {
    forall id | id in st.certificates :: Kept(st, st.certificates[id])
  }

  lemma LockChangeKeeps(st: State, c: Command, id: nat)
    requires c.SetLock? && Seals(st, c) && id in st.certificates && Kept(st, st.certificates[id])
    ensures Kept(Next(st, c), st.certificates[id])
  {
    hide ControlTotals, Sealed;
  }

  /** A new certificate's end is at or before the lock that its close has just advanced. */
  lemma NewCertificateKept(st: State, c: Command, id: nat)
    requires id in Next(st, c).certificates
    requires id !in st.certificates || st.certificates[id] != Next(st, c).certificates[id]
    ensures Kept(Next(st, c), Next(st, c).certificates[id])
  {
    hide ControlTotals, LatestClosed, DateAllowed, Overlaps, InClosedPeriod;
    NewCertificateHolds(st, c, id);
  }

  lemma StepKeepsAll(st: State, c: Command)
    requires AllKept(st) && Seals(st, c)
    ensures AllKept(Next(st, c))
  {
    hide Kept, Seals, Step, Next;
    var next := Next(st, c);
    forall id | id in next.certificates ensures Kept(next, next.certificates[id]) {
      if id in st.certificates && st.certificates[id] == next.certificates[id] {
        if c.SetLock? { LockChangeKeeps(st, c, id); } else { StepKeeps(st, c, st.certificates[id]); }
      } else {
        NewCertificateKept(st, c, id);
      }
    }
  }

  lemma {:induction false} SealingRunKeepsAll(cs: seq<Command>)
    requires SealingRun(EMPTY, cs)
    ensures AllKept(Run(EMPTY, cs))
  {
    hide Kept, Seals, Next;
    if cs != [] {
      SealingRunKeepsAll(cs[..|cs| - 1]);
      StepKeepsAll(Run(EMPTY, cs[..|cs| - 1]), cs[|cs| - 1]);
    }
  }

  /** In every run whose manual lock changes, lower or higher, leave the dates of current certificates sealed, a
      certificate whose captured close is current equals the ledger. */
  lemma SealingRunsKeepCertificates(cs: seq<Command>, id: nat)
    requires SealingRun(EMPTY, cs) && id in Run(EMPTY, cs).certificates
    ensures Unrefuted(Run(EMPTY, cs), id)
  {
    hide Kept, Seals, Run;
    SealingRunKeepsAll(cs);
    KeptIsUnrefuted(Run(EMPTY, cs), id);
  }

  /** The verification query reports a match exactly when the captured close is current and captured and current
      totals are the same. */
  lemma VerifiedMeans(st: State, id: nat)
    requires id in st.certificates
    ensures var c := st.certificates[id];
            ClosedVerified(st, id).matches <==>
              ClosedAtCapturedVersion(st, id) && c.totals == ControlTotals(st.ledger, c.start, c.end)
  {
    var c := st.certificates[id];
    NoDifferencesIff(c.totals, ControlTotals(st.ledger, c.start, c.end));
  }
}
