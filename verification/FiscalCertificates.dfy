/** What a close certificate was captured from, and what its verification reports
    (src/fiscal-close-certificates.ts). */
module FiscalCertificates {
  import opened Wrappers
  import opened Orders
  import opened FiscalPeriods
  import opened FiscalSafety
  import opened FiscalSeals
  import opened FiscalTransitions

  // ---- capture ----

  /** The certificate is that of the canonical close carried out in the state. */
  predicate Captures(st: State, c: Command, id: nat, k: Certificate) {
    && c.CloseCanonical? && c.key == id && Closes(st, c, c.id)
    && k.period == c.id && k.readiness == c.found && k.command == Content(c) && k.version == c.expected + 1
    && k.closeEvent == CanonicalClose(id)
    && k.start == st.periods[c.id].start && k.end == st.periods[c.id].end
    && k.totals == ControlTotals(st.ledger, k.start, k.end)
  }

  lemma NewCertificateCaptures(st: State, c: Command, id: nat)
    requires KeysBehind(st) && id !in st.certificates && id in Next(st, c).certificates
    ensures Captures(st, c, id, Next(st, c).certificates[id])
  {
    hide ControlTotals, LatestClosed, DateAllowed, Overlaps, KeysBehind;
    if c.CloseCanonical? && c.id in st.periods { NoConflicts(st, c, c.id); }
  }

  /** Every certificate was captured by a canonical close of the run, with that command's readiness, and from the ledger
      as it was then; it never changes. */
  lemma {:induction false} CertificatesAreCaptured(cs: seq<Command>, id: nat)
    requires id in Run(EMPTY, cs).certificates
    ensures exists i :: 0 <= i < |cs| && Captures(Run(EMPTY, cs[..i]), cs[i], id, Run(EMPTY, cs).certificates[id])
  {
    hide Next, Captures, KeysBehind;
    if cs != [] {
      var front, c := cs[..|cs| - 1], cs[|cs| - 1];
      if id in Run(EMPTY, front).certificates {
        CertificatesAreCaptured(front, id);
        CertificateStays(Run(EMPTY, front), c, id);
        var k := Run(EMPTY, cs).certificates[id];
        var i :| 0 <= i < |front| && Captures(Run(EMPTY, front[..i]), front[i], id, k);
        assert cs[..i] == front[..i] && cs[i] == front[i];
      } else {
        RunKeepsKeysBehind(front);
        NewCertificateCaptures(Run(EMPTY, front), c, id);
        assert Captures(Run(EMPTY, cs[..|cs| - 1]), cs[|cs| - 1], id, Run(EMPTY, cs).certificates[id]);
      }
    }
  }

  // ---- the current close ----

  /** The period has moved on from the certificate's version, or is closed as it captured. */
  predicate Agrees(st: State, k: Certificate) {
    && k.period in st.periods
    && var p := st.periods[k.period];
    && k.start == p.start && k.end == p.end && k.version <= p.version
    && (k.version == p.version ==> p.status == Closed && p.closeEvent == Some(k.closeEvent))
  }

  lemma StepKeepsAgreement(st: State, c: Command, k: Certificate)
    requires Agrees(st, k)
    ensures Agrees(Next(st, c), k)
  {
    hide ControlTotals, LatestClosed, DateAllowed, Overlaps;
  }

  lemma CapturedAgrees(st: State, c: Command, id: nat)
    requires KeysBehind(st) && id !in st.certificates && id in Next(st, c).certificates
    ensures Agrees(Next(st, c), Next(st, c).certificates[id])
  {
    hide ControlTotals, LatestClosed, DateAllowed, Overlaps, KeysBehind;
  }

  lemma {:induction false} RunKeepsAgreement(cs: seq<Command>, id: nat)
    requires id in Run(EMPTY, cs).certificates
    ensures Agrees(Run(EMPTY, cs), Run(EMPTY, cs).certificates[id])
  {
    hide Next, Agrees, KeysBehind;
    if cs != [] {
      var front, c := cs[..|cs| - 1], cs[|cs| - 1];
      if id in Run(EMPTY, front).certificates {
        RunKeepsAgreement(front, id);
        CertificateStays(Run(EMPTY, front), c, id);
        StepKeepsAgreement(Run(EMPTY, front), c, Run(EMPTY, front).certificates[id]);
      } else {
        RunKeepsKeysBehind(front);
        CapturedAgrees(Run(EMPTY, front), c, id);
      }
    }
  }

  /** In every reachable state a captured close is current exactly while its period is at the captured version, whatever
      was done before: the status and the close event then agree by themselves. */
  lemma CurrentCloseIff(cs: seq<Command>, id: nat)
    requires id in Run(EMPTY, cs).certificates
    ensures var st := Run(EMPTY, cs); var k := st.certificates[id];
            && k.period in st.periods
            && (ClosedVerified(st, id).closedAtCapturedVersion <==> st.periods[k.period].version == k.version)
  {
    hide Run;
    RunKeepsAgreement(cs, id);
  }

  // ---- counts ----

  /** The groups with a posting up to a date. */
  function Groups(ledger: seq<Posting>, end: int): set<Group> {
    set p | p in ledger && p.date <= end :: p.group
  }

  lemma {:induction false} GroupsAreRows(ledger: seq<Posting>, start: int, end: int)
    ensures ControlTotals(ledger, start, end).Keys == Groups(ledger, end)
  {
    if ledger != [] {
      var front, p := ledger[..|ledger| - 1], ledger[|ledger| - 1];
      GroupsAreRows(front, start, end);
      assert ledger == front + [p];
      assert Groups(ledger, end) == Groups(front, end) + if p.date <= end then {p.group} else {};
    }
  }

  /** The verification of totals counts the captured groups, the groups posted up to the period's end, and those on
      which the two differ; it matches exactly when there is no such group. */
  lemma VerifiedCounts(st: State, id: nat)
    requires id in st.certificates
    ensures var k, v := st.certificates[id], TotalsVerified(st, id);
            var current := ControlTotals(st.ledger, k.start, k.end);
            && v.captured == |k.totals.Keys| && v.current == |Groups(st.ledger, k.end)|
            && v.differing == |set g | g in k.totals.Keys + Groups(st.ledger, k.end)
                                       && !(g in k.totals && g in current && k.totals[g] == current[g])|
            && (v.matches <==> k.totals == current)
  {
    hide ControlTotals;
    var k := st.certificates[id];
    var current := ControlTotals(st.ledger, k.start, k.end);
    GroupsAreRows(st.ledger, k.start, k.end);
    assert |k.totals| == |k.totals.Keys| && |current| == |current.Keys|;
    assert Differences(k.totals, current)
           == set g | g in k.totals.Keys + Groups(st.ledger, k.end)
                      && !(g in k.totals && g in current && k.totals[g] == current[g]);
    NoDifferencesIff(k.totals, current);
  }

  // ---- bank evidence ----

  lemma ByAccountOrders(banks: seq<Bank>)
    requires forall a, b | a in banks && b in banks && a.account == b.account :: a == b
    requires Distinct(banks)
    ensures multiset(ByAccount(banks)) == multiset(banks)
    ensures forall i, j | 0 <= i < j < |ByAccount(banks)| :: ByAccount(banks)[i].account < ByAccount(banks)[j].account
  {
    hide SortBy;
    var le := (a: Bank, b: Bank) => a.account <= b.account;
    SortBySorts(banks, le);
    SortByPermutes(banks, le);
    var sorted := SortBy(banks, le);
    assert ByAccount(banks) == sorted by { SortedSame(banks, le); }
    forall i, j | 0 <= i < j < |sorted| ensures sorted[i].account < sorted[j].account {
      assert le(sorted[i], sorted[j]) && sorted[i] != sorted[j] && sorted[i] in banks && sorted[j] in banks;
    }
  }

  lemma SortedSame(banks: seq<Bank>, le: (Bank, Bank) -> bool)
    requires forall a, b :: le(a, b) <==> a.account <= b.account
    ensures ByAccount(banks) == SortBy(banks, le)
  {
    SortAgrees(banks, (a: Bank, b: Bank) => a.account <= b.account, le);
  }

  lemma {:induction false} SortAgrees(banks: seq<Bank>, f: (Bank, Bank) -> bool, g: (Bank, Bank) -> bool)
    requires forall a, b :: f(a, b) == g(a, b)
    ensures SortBy(banks, f) == SortBy(banks, g)
  {
    if banks != [] {
      SortAgrees(banks[1..], f, g);
      InsertAgrees(banks[0], SortBy(banks[1..], f), f, g);
    }
  }

  lemma {:induction false} InsertAgrees(x: Bank, s: seq<Bank>, f: (Bank, Bank) -> bool, g: (Bank, Bank) -> bool)
    requires forall a, b :: f(a, b) == g(a, b)
    ensures Insert(x, s, f) == Insert(x, s, g)
  {
    if s != [] && !f(x, s[0]) { InsertAgrees(x, s[1..], f, g); }
  }

  function Active(banks: seq<Bank>): seq<Bank> {
    if banks == [] then []
    else Active(banks[..|banks| - 1]) + if banks[|banks| - 1].evidence.Some? then [banks[|banks| - 1]] else []
  }

  lemma {:induction false} ActiveAre(banks: seq<Bank>)
    ensures forall b :: b in Active(banks) <==> b in banks && b.evidence.Some?
  {
    if banks != [] {
      ActiveAre(banks[..|banks| - 1]);
      assert banks == banks[..|banks| - 1] + [banks[|banks| - 1]];
    }
  }

  lemma {:induction false} ActiveInOrder(banks: seq<Bank>)
    requires forall i, j | 0 <= i < j < |banks| :: banks[i].account < banks[j].account
    ensures forall i, j | 0 <= i < j < |Active(banks)| :: Active(banks)[i].account < Active(banks)[j].account
  {
    if banks != [] {
      var front, last := banks[..|banks| - 1], banks[|banks| - 1];
      ActiveInOrder(front);
      ActiveAre(front);
      forall i | 0 <= i < |Active(front)| ensures Active(front)[i].account < last.account {
        assert Active(front)[i] in Active(front);
        var j :| 0 <= j < |front| && front[j] == Active(front)[i];
        assert banks[j] == front[j];
      }
    }
  }

  lemma {:induction false} EvidenceIsOfActive(banks: seq<Bank>)
    ensures |EvidenceOf(banks)| == |Active(banks)|
    ensures forall i | 0 <= i < |Active(banks)| :: Active(banks)[i].evidence == Some(EvidenceOf(banks)[i])
  {
    if banks != [] { EvidenceIsOfActive(banks[..|banks| - 1]); }
  }

  /** The bank evidence lists, in account order, the statement event of exactly the banks with activity. */
  lemma EvidenceInAccountOrder(st: State, id: nat)
    requires id in st.certificates
    requires var banks := st.certificates[id].readiness.banks;
             Distinct(banks) && forall a, b | a in banks && b in banks && a.account == b.account :: a == b
    ensures var banks := st.certificates[id].readiness.banks; var evidence := ClosedVerified(st, id).bankEvidence;
            exists active: seq<Bank> ::
              && (forall b :: b in active <==> b in banks && b.evidence.Some?)
              && (forall i, j | 0 <= i < j < |active| :: active[i].account < active[j].account)
              && |evidence| == |active|
              && forall i | 0 <= i < |active| :: active[i].evidence == Some(evidence[i])
  {
    hide ByAccount, EvidenceOf, Active, TotalsVerified, ClosedAtCapturedVersion;
    var banks := st.certificates[id].readiness.banks;
    ByAccountOrders(banks);
    EvidenceIsOfActive(ByAccount(banks));
    ActiveAre(ByAccount(banks));
    ActiveInOrder(ByAccount(banks));
    SameElements(ByAccount(banks), banks);
    var active := Active(ByAccount(banks));
    assert forall b :: b in active <==> b in banks && b.evidence.Some?;
  }
}
