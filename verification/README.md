# Verification model of the accounting kernel

A Dafny model of the kernel's lifecycle protocols and of its exact cent arithmetic, with proofs of what they promise.
`dafny verify dfyconfig.toml` checks everything.

## What is modelled

- **Cash basis** (`LargestRemainder`, `CashBasis`, `CashBasisControl`, `CashBasisReversals`): largest-remainder
  allocation, the control line with its half-up contra share, repeated partial applications, and reversals in any order. Money is integer cents.
- **Bank statements** (`BankStatements`, `BankStatementBalance`, `BankStatementChanges`, `BankStatementLedger`,
  `BankStatementHistory`, `BankStatementReceipts`, `BankStatementPages`): drafts, completions and cancellations linked to their predecessors, clearing deltas, immutable
  history, receipts, retirement of uncertain commands, and pinned pages.
- **Fiscal close** (`FiscalPeriods`, `FiscalService`, `FiscalTransitions`, `FiscalAnswers`, `FiscalSafety`, `FiscalSeals`,
  `FiscalCertificates`): the period machine, the posting gate, the book lock and the close certificates.
- **Account hierarchy** (`AccountHierarchy`, `AccountHierarchyCheck`, `AccountHierarchyLinks`, `RollupForest`,
  `RollupLaws`, `RollupRefs`, `RollupLines`, `RollupReport`): link and cycle diagnostics, and the rollup report on a validated hierarchy.
- **Canonical JSON** (`JsonText`, `CanonicalJson`, `CanonicalJsonLaws`, `CanonicalJsonOrder`, `JsonReading`,
  `LifecycleEvents`): the text that command checksums are taken of, and the keyed event log.
- **Cash flow** (`CashFlow`, `CashFlowLaws`, `CashFlowActivities`): which activity receives each cash transaction, and the
  reconciliation of the summary.
- **Outbox** (`Outbox`, `OutboxLaws`, `FinancialRuntime`): leases, reports, several workers, and one worker run.
- **Bank reconciliation** (`BankReconciliation`, `BankReconciliationLaws`, `BankReconciliationChanges`,
  `BankReconciliationAnswers`): lines, matches and their receipts.
- **Decimals and pieces** (`Decimals`, `CommercialLines`, `CommercialLinesAccepted`, `EvidenceChunks`, `EvidenceBytes`):
  printing and parsing of scaled decimals, line normalisation, and evidence chunking.

Each service whose methods update tables is a class whose fields are the tables; a table is a map or a set, each command
is atomic because the code holds its source or fiscal lock, and every method is proved equal to a step function on the
tables' snapshot. Laws of whole runs are proved about those step functions. Identifiers are numbers in their text order,
dates ordered integers, digests the tuple or text they are taken of, and unique indexes and the period-overlap trigger
guards of the step that would violate them. Clocks, handlers, ledger facts and query results are parameters.

## Where the code promises less than one may expect

- `setPostingLockDate` accepts any date. A current certificate stays true after it exactly when every date up to the
  certificate's end that the new lock leaves open lies in a closed period (`FiscalSeals.LockChangeKeepsCertificateIff`);
  `FiscalSafety.LoweredLockBreaksCertificate` is a run in which it does not.
- Canonical texts of equal payloads differ when two keys of one object collate equal
  (`CanonicalJsonOrder.OrderIndependentIffTieFree`).
- Without a control account the projection does not reject negative lines, and then it may recognise the wrong amount
  (`CashBasis.UncontrolledExactIff`, `CashBasis.NegativeLinesUnbalance`).
- A worker's hold on an event ends with its lease: another claim can take the event exactly when it is available and the
  lease has run out (`OutboxLaws.CanBeTakenIff`), and a report made after that settles the other worker's claim
  (`OutboxLaws.LateReportSettlesAnothersClaim`).

## Model

| member | source | states |
|---|---|---|
| `LargestRemainder.Allocate` | src/accounting-basis-projection.ts:95-103 | The loop, over any amounts, returns the specified allocation: truncated quotas, then one unit at a time along decreasing remainders, ties by position, to positive amounts only |
| `LargestRemainder.ExtraUnitsToLargestRemainders` | src/accounting-basis-projection.ts:95-103 | For non-negative amounts and a target up to the total, each share is the floor of its exact quota, plus one exactly for the positions that fewer others precede by remainder and position than there are units left over; a unit never falls on a zero remainder |
| `LargestRemainder.AllocationSplits` | src/accounting-basis-projection.ts:95-103 | Such an allocation sums to exactly the target and gives no line less than zero or more than its amount, so no unit is left over |
| `LargestRemainder.SumIffResidualFits` | src/accounting-basis-projection.ts:95-103 | For all amounts, negative ones included, the allocation reaches its target if and only if the units left after truncation are neither negative nor more than the positive amounts |
| `CashBasis.ProjectCashBasisApplication` | src/accounting-basis-projection.ts:33-93 | The projection with its checks in their order and both of its paths, for every journal and amount |
| `CashBasis.AllocateControlled` | src/accounting-basis-projection.ts:54-73 | The control path: zeroed control line, contra share, overwritten control position, and the opposite side |
| `CashBasis.AllocateContra` | src/accounting-basis-projection.ts:66-70 | The contra lines' allocation, all zeros without a contra total |
| `CashBasis.ApplicationRecognises` | src/accounting-basis-projection.ts:33-73 | Every amount up to the capacity of a non-negative journal is accepted, balanced, within every line, exactly the applied amount on the control line, within half a cent of the exact proportion on the contra lines, and reproduces the journal on full application |
| `CashBasis.AcceptedWithinCapacity` | src/accounting-basis-projection.ts:35-65 | A non-negative journal is accepted if and only if it is a balanced accrual journal with its one control line and the amount is positive and within the control balance, or within the total without a control |
| `CashBasisControl.CustomerControlIsDebit` | src/accounting-basis-projection.ts:53-65 | A customer payment or refund around its one control line is accepted if and only if that line is a pure debit and the amount is positive and within it, and then gives the line exactly the amount as a debit and nothing as a credit |
| `CashBasisControl.BillControlIsCredit` | src/accounting-basis-projection.ts:53-65 | For a bill payment the same holds with debit and credit exchanged |
| `CashBasis.InstallmentsConserve` | src/accounting-basis-projection.ts:21-24 | Any series of applications within the capacity is accepted piece by piece; recognised plus remaining is the original on every line, what remains stays non-negative, balanced and projectable, and nothing at all remains once the pieces exhaust the capacity, however it was cut |
| `CashBasis.AllocationReproduced` | src/accounting-basis-projection.ts:21-24 | Projecting an exact original allocation again gives the same allocation |
| `CashBasisReversals.RunsConserve` | src/accounting-basis-projection.ts:21-24 | After any sequence of recognitions and reversals, refused ones included: net recognised plus remaining is the original on every line, neither negative; the next application is accepted if and only if it is positive and within the capacity that active applications do not hold; each active one is reversed with exactly its own shares; with none active the original journal is back, and nothing remains once they hold all capacity |
| `CashBasisReversals.ReversalIsExact` | src/accounting-basis-projection.ts:21-24 | Whatever was applied or reversed in between, projecting an application's exact original allocation gives back its shares cent for cent |
| `CashBasis.ReversalCancels` | src/accounting-basis-projection.ts:74-92 | Reversing the exact original allocation cancels its recognition line by line, debit against credit |
| `CashBasis.RowsCarryShares` | src/accounting-basis-projection.ts:74-92 | The emitted rows carry every nonzero share of every line and nothing else, so they keep both totals |
| `CashBasis.UncontrolledExactIff` | src/accounting-basis-projection.ts:50-52 | Without a control, where negative lines are not rejected, an accepted journal is recognised for the applied amount on both sides if and only if both residuals fit the positive lines |
| `CashBasis.NegativeLinesUnbalance` | src/accounting-basis-projection.ts:50-52 | A journal with negative lines that is accepted and recognised for the wrong amount of debits |
| `BankStatements.Service.PrepareStatement` | src/bank-statements.ts:170-220 | The draft command step by step over the tables: replay, gate, book, new draft after the latest completed statement or update of the current draft, removals, additions, cut-off, receipt; every refusal leaves the tables as they were |
| `BankStatements.Service.PrepareHeader` | src/bank-statements.ts:183-198 | The statement row that a prepare inserts or updates, with the one-draft index as a guard |
| `BankStatements.Service.Transition` | src/bank-statements.ts:221-242 | Complete, reopen and cancel over the tables, cancel in its two updates |
| `BankStatements.Service.Record` | src/bank-statements.ts:136-153 | The receipt, the history rows and the statement's event |
| `BankStatements.Service.ProjectRow` | src/bank-statements.ts:114-124 | A statement's summary with its selected amount, count and difference |
| `BankStatements.Service.RetireCommandAttempt` | src/bank-statements.ts:247-290 | Retiring an uncertain command: already retired, already recorded with the original and the current statement, or the key occupied for good |
| `BankStatementChanges.CommandsAnsweredIff` | src/bank-statements.ts:170-242 | After any run, a command under an unused key is carried out if and only if it completes a balanced draft by someone else than its preparer, reopens a completed statement by someone else than its completer with nothing depending on it, cancels a draft, or selects eligible uncleared postings for the current draft or for a new statement later than all completed ones; each at its version and with the posting gate open |
| `BankStatementChanges.CommandLeaves` | src/bank-statements.ts:183-242 | What it leaves: the statement's row as its kind of command says, a new one continuing the latest completed balance, every other row as it was, the clearings as they were or without those it frees, and as its result the statement with the sum, count and difference of its cleared postings |
| `BankStatementLedger.PrepareClearsPostings` | src/bank-statements.ts:199-214 | An accepted prepare clears each added posting on its statement with exactly the ledger's date and net amount, frees exactly the removed ones, and leaves every other clearing |
| `BankStatementLedger.PreparedPostings` | src/bank-statements.ts:204-212 | It clears only posted, nonzero ledger lines of the account, basis and currency, dated up to the statement and not cleared before, and frees only what the statement held |
| `BankStatementLedger.ClosingIsLedgerSum` | src/bank-statements.ts:187-242 | In every run whose commands read one ledger, a completed statement's closing balance is the sum of that ledger's net amounts over the postings cleared on it and its predecessors, all posted lines of its account |
| `BankStatementBalance.EveryRunIsValid` | src/bank-statements.ts:170-242 | In every state of every run of commands and retirements: each statement that is not cancelled opens where its completed predecessor closed, completed statements balance, cleared postings lie on live statements within their dates, at most one draft per account, and completion by someone else than the preparer |
| `BankStatementBalance.ClosingIsSumOfClearedChain` | src/bank-statements.ts:114-124 | A completed statement's closing balance is the sum of all postings cleared on it and its whole predecessor chain, each posting once |
| `BankStatementBalance.ReachableBalances` | src/bank-statements.ts:187-242 | The same in every state reachable from empty tables |
| `BankStatementHistory.HistoryReproducesEveryVersion` | src/bank-statements.ts:136-153 | At any later time, folding a statement's history rows up to a version it has passed through gives exactly the selection it held at that version |
| `BankStatementHistory.NextExtends` | src/bank-statements.ts:199-241 | One step only adds history rows of new versions, and moves every statement by at most one version, cancel included |
| `BankStatementHistory.RunExtends` | src/bank-statements.ts:136-153 | Whole runs never rewrite history rows of versions already reached |
| `BankStatementReceipts.EffectIffReceipt` | src/bank-statements.ts:126-153 | A command or retirement writes its own receipt exactly when it takes effect, and otherwise changes no table at all |
| `BankStatementReceipts.OneEffectPerKey` | src/bank-statements.ts:247-290 | In any interleaving at most one execution or retirement takes effect under a key, and none once the key is used |
| `BankStatementReceipts.ReceiptsLast` | src/bank-statements.ts:126-135 | Receipts are immutable over every run |
| `BankStatementReceipts.RetiredNeverExecutes` | src/bank-statements.ts:257-290 | After a retirement no continuation executes a command under the key |
| `BankStatementReceipts.AcceptedSurvivesRetirement` | src/bank-statements.ts:261-277 | After acceptance, retirement by the same actor changes nothing and returns the original result, whatever transitions followed |
| `BankStatementReceipts.ReplayReturnsOriginal` | src/bank-statements.ts:126-135 | Repeating an accepted command returns its original result and changes nothing, ever after |
| `BankStatementReceipts.RepetitionsAnsweredIff` | src/bank-statements.ts:126-135 | After any run, a command under a used key is answered if and only if it is the very command that was carried out under it |
| `BankStatementReceipts.RetirementsAnsweredIff` | src/bank-statements.ts:247-290 | After any run, a retirement occupies its key, is repeated, or answers the recorded outcome exactly when the key is unused within an existing scope, was retired by the same command and decision, or was used by the very command; never for another actor |
| `BankStatementPages.CursorsDeliverPinnedHistory` | src/bank-statements.ts:343-366 | Following history cursors while any commands commit between the pages terminates and delivers every clearing change up to the version pinned by the first page exactly once, by version and then identity |
| `BankStatementPages.NextCursor` | src/bank-statements.ts:348-366 | A page's cursor is accepted in every later state and asks for exactly the rows that remain |
| `BankStatementPages.PagesAnsweredIff` | src/bank-statements.ts:343-366 | A page is given if and only if its limit is 1 to 500, the statement is known and the cursor is of that statement at a version it has reached; it holds at most the limit of due rows, in order and before all others, and has a next cursor exactly when due rows are left over |
| `FiscalService.Service.DefineFiscalPeriod` | src/fiscal-periods.ts:300-367 | Defining a period over the tables, with the overlap trigger as a guard |
| `FiscalService.Service.BeginFiscalPeriodClose` | src/fiscal-periods.ts:200-254 | Starting a close: replay, version and status checks, in the order of the code |
| `FiscalService.Service.CloseFiscalPeriod` | src/fiscal-periods.ts:422-492 | Closing with evidence, which advances the book lock |
| `FiscalService.Service.CloseCanonicalFiscalPeriod` | src/fiscal-periods.ts:369-420 | Closing from open or closing with a certificate, refused without an active book or with unresolved diagnostics; a repeated key is answered from the certificate |
| `FiscalService.Service.ReopenFiscalPeriod` | src/fiscal-periods.ts:494-554 | Reopening, which recomputes the book lock |
| `FiscalService.Service.SetPostingLockDate` | src/fiscal-periods.ts:556-615 | The manual lock change as a versioned upsert |
| `FiscalService.Service.AssertPostingDateAllowed` | src/fiscal-periods.ts:256-298 | The gate accepts exactly the dates after the lock inside a period that is open, or closing for a closing adjustment; reads all covering periods, of which there is at most one |
| `FiscalTransitions.StatusChangesIff` | src/fiscal-periods.ts:200-653 | In every reachable state: a period turns closed if and only if a closing one is closed with clean diagnostics or an open or closing one canonically with an active book and readiness, turns closing if and only if an open one is begun, turns open if and only if a closed one is reopened, each at its expected version, and appears if and only if a valid range meets no other; no other command touches its row |
| `FiscalTransitions.ClosedPeriodsWereReady` | src/fiscal-periods.ts:454-458 | Every closed period of a reachable state was closed by a command of the run that met those conditions then, at the version the period still has |
| `FiscalAnswers.TransitionsAnsweredIff` | src/fiscal-periods.ts:655-726 | In every reachable state a transition is accepted if and only if it takes effect or has the content of the command that changed its period last |
| `FiscalAnswers.DefinitionsAnsweredIff` | src/fiscal-periods.ts:300-367 | A definition is accepted if and only if it creates its period or is the very definition that created it |
| `FiscalAnswers.LockChangesAnsweredIff` | src/fiscal-periods.ts:556-615 | A manual lock change is accepted if and only if it is at the lock's current version under a request no accepted change has used, and then sets its own date at the next version |
| `FiscalAnswers.LockMoves` | src/fiscal-periods.ts:617-653 | The lock's version counts its changes, a close moves it to the later of itself and the closed end, and only closes, reopenings and manual changes touch it |
| `FiscalAnswers.PostsAnsweredIff` | src/fiscal-periods.ts:256-298 | In every reachable state a posting is accepted if and only if its date is after the lock and in a period open for it, and then adds its lines and nothing else |
| `FiscalAnswers.LedgerLiesInPeriods` | src/fiscal-periods.ts:279-297 | Every posting of a reachable ledger lies in a defined period |
| `FiscalService.Service.RecomputeBookLock` | src/fiscal-periods.ts:636-653 | The lock becomes the latest end still closed, or none; a missing control row stays missing |
| `FiscalService.Service.MaxClosedEnd` | src/fiscal-periods.ts:641-649 | The aggregate over closed periods is their latest end |
| `FiscalService.Service.RecordCanonicalCloseCertificate` | src/fiscal-close-certificates.ts:75-106 | A certificate captures the command, the period's new version and close event, the ledger's control totals, and the readiness with its basis, currency, diagnostics and bank rows |
| `FiscalService.Service.VerifyCurrentTotals` | src/fiscal-close-certificates.ts:238-278 | The numbers of groups captured, of groups in the ledger now, and of groups on which the two differ; a match exactly when none does; an unknown certificate is refused |
| `FiscalService.Service.VerifyClosedState` | src/fiscal-close-certificates.ts:194-231 | Whether the captured close is still current, the statement events of the banks with activity in account order, and a match only if the totals match too; an unknown certificate and an inactive book are refused |
| `FiscalCertificates.CertificatesAreCaptured` | src/fiscal-close-certificates.ts:75-106 | Every certificate was captured by a canonical close of the run, with that command's content and readiness, and with the control totals of the ledger as it was then; it never changes |
| `FiscalCertificates.CurrentCloseIff` | src/fiscal-close-certificates.ts:222-224 | In every reachable state a captured close is current if and only if its period is at the captured version: status and close event then agree by themselves |
| `FiscalCertificates.VerifiedCounts` | src/fiscal-close-certificates.ts:238-278 | The verification counts the captured groups, the groups with a posting up to the end, and those on which the two differ, and matches if and only if the totals are the same |
| `FiscalCertificates.EvidenceInAccountOrder` | src/fiscal-close-certificates.ts:199-221 | The bank evidence lists the statement event of exactly the banks with activity, in account order |
| `FiscalSafety.ClosedCertificatesStayTrue` | src/fiscal-close-certificates.ts:194-277 | In every run whose manual lock changes are not set below a closed end, the lock is at or after every closed period's end, and a certificate whose captured close is current equals the ledger, whatever was reopened and posted in between |
| `FiscalSafety.StepKeepsLock` | src/fiscal-periods.ts:617-653 | Every command but a disrespectful manual change keeps the lock at or after every closed end, starting from any state where it is |
| `FiscalSeals.LockChangeKeepsCertificateIff` | src/fiscal-periods.ts:556-615 | Let a manual change be accepted while a certificate's close is current and its totals hold. No later commands without another manual change, a single posting or a reopening and a new close, can make that certificate current and wrong if and only if every date up to its end that the new lock leaves open lies in a closed period |
| `FiscalSeals.SealingRunsKeepCertificates` | src/fiscal-close-certificates.ts:194-277 | In every run from the start whose manual changes meet that condition for the closes current at the time, a certificate whose close is current equals the ledger, lowered locks included |
| `FiscalSeals.VerifiedMeans` | src/fiscal-close-certificates.ts:194-231 | The verification reports a match exactly when the captured close is current and captured and current totals are the same |
| `FiscalSafety.AnyCoveringPeriodDecides` | src/fiscal-periods.ts:279-297 | In every reachable state at most one period covers a date, so reading the first covering row decides as asking all of them does, by that period's status alone |
| `FiscalSafety.ReopenSetsLatestClosed` | src/fiscal-periods.ts:636-653 | After a reopening the lock is the end of a period still closed and at or after all such ends, and absent exactly without a closed period |
| `FiscalSafety.ControlTotalsMeaning` | src/fiscal-close-certificates.ts:88-97 | A group has a captured row exactly when it has a posting up to the end; the row sums exactly its postings, those before the start into the opening net, and closing is opening plus debits less credits |
| `FiscalSafety.TotalsUnchangedIff` | src/fiscal-close-certificates.ts:242-277 | Postings leave the control totals up to a date unchanged if and only if none of them is dated up to it, whatever their amounts |
| `FiscalSafety.NoDifferencesIff` | src/fiscal-close-certificates.ts:262-266 | The full outer join finds no difference if and only if captured and current totals are the same |
| `FiscalSafety.PostingBreaksCertificateIff` | src/fiscal-close-certificates.ts:238-278 | From a matching certificate, a gated posting makes it differ if and only if it posts lines dated up to the certificate's end |
| `FiscalSafety.LoweredLockBreaksCertificate` | src/fiscal-periods.ts:556-615 | A run that lowers the lock by hand, posts into an earlier open period, and leaves a later certificate current but different from the ledger |
| `FiscalSafety.NoCommandAppliesTwice` | src/fiscal-periods.ts:692-726 | Once accepted, a fiscal command sent again after any further commands changes nothing, answered or refused |
| `AccountHierarchyCheck.ValidateAccountHierarchy` | src/account-hierarchy.ts:43-80 | Link resolution in a loop over the loaded accounts, and then the cycle search, for any account list |
| `AccountHierarchyCheck.CycleSearch.Visit` | src/account-hierarchy.ts:102-135 | One visit of the marked search terminates on any parent map, marks exactly the keys of the specified search, and emits exactly the cycle it runs into; the signature test never suppresses one |
| `AccountHierarchyCheck.CycleSearch.VisitAll` | src/account-hierarchy.ts:137-140 | Visiting the validated accounts in turn emits exactly the specified cycles |
| `AccountHierarchyCheck.DiagnosticsNoneIff` | src/account-hierarchy.ts:43-80 | There are no diagnostics if and only if every validated account's parent is in its tenant and source and its chain of links ends |
| `AccountHierarchyCheck.WholeHierarchySoundIff` | src/account-hierarchy.ts:47-80 | With all accounts validated: no diagnostics if and only if every parent reference stays in scope and every chain of references ends at an account without a parent |
| `AccountHierarchyCheck.CycleDiagnosticNamesCycle` | src/account-hierarchy.ts:179-205 | A cycle diagnostic names exactly the cycle's accounts in parent order, and building it never reaches its internal error |
| `AccountHierarchyCheck.LinkDiagnosticsNoneIff` | src/account-hierarchy.ts:56-72 | Orphan and cross-scope links are diagnosed exactly for validated accounts whose parent is missing from their scope |
| `AccountHierarchyLinks.LinkDiagnosticsTellApart` | src/account-hierarchy.ts:56-72 | For every account: an orphan diagnostic if and only if it is validated and no loaded account carries its parent's id; a cross-scope one if and only if only accounts of other tenants or sources do, naming the first of them; never both or two |
| `AccountHierarchyLinks.DedupeKeepsFirst` | src/account-hierarchy.ts:226-237 | Deduplication keeps the first account of each scope key |
| `AccountHierarchy.ReportedCyclesAreCycles` | src/account-hierarchy.ts:93-141 | Every reported cycle is a parent cycle reached from a validated account, and no two share a member |
| `AccountHierarchy.EveryCycleReportedOnce` | src/account-hierarchy.ts:93-141 | Every parent cycle that a validated account runs into is reported, by exactly one entry |
| `AccountHierarchy.NoCycleIffRoots` | src/account-hierarchy.ts:93-141 | No cycle is reported if and only if every account searched from reaches a root |
| `AccountHierarchy.DedupeKeepsKeys` | src/account-hierarchy.ts:226-237 | Deduplication keeps every scope key exactly once |
| `RollupReport.BuildAccountHierarchyRollupLines` | src/account-hierarchy-rollup-lines.ts:84-112 | Four refusals, each exactly when its input is at fault and no earlier check fails: a duplicate account, an invalid hierarchy, two amounts of one account, an amount of an account out of scope; otherwise returns lines for which the whole report law holds |
| `RollupReport.AccountHierarchyRoots` | src/account-hierarchy-rollup-lines.ts:149-171 | Links every node below its parent or among the roots, and sorts every list |
| `RollupReport.Builder.BuildRollup` | src/account-hierarchy-rollup-lines.ts:173-211 | The recursion ends on a validated hierarchy, stores the rollup of every node of the subtree, and returns the node's own |
| `RollupReport.Builder.CollectRollupLines` | src/account-hierarchy-rollup-lines.ts:213-254 | Appends exactly the specified lines; every rollup it asks for was built |
| `RollupReport.ValidatedChainsEnd` | src/account-hierarchy-rollup-lines.ts:88-105 | After validation, every chain of parents by account id ends, which is why the recursion terminates |
| `RollupReport.NodeListsAreForest` | src/account-hierarchy-rollup-lines.ts:149-171 | The sorted node lists of a validated hierarchy form a forest over all scoped accounts |
| `RollupLines.ReportLinesComplete` | src/account-hierarchy-rollup-lines.ts:213-254 | Every visible account has exactly one line, so every account with a nonzero direct amount; each line sums its subtree; a child's line follows its parent's and names it; the top-level lines sum to all supplied amounts |
| `RollupLaws.AmountIsSubtreeSum` | src/account-hierarchy-rollup-lines.ts:173-183 | A rollup's amount is the sum of direct amounts over its subtree, each counted once |
| `RollupLaws.NonzeroIsVisible` | src/account-hierarchy-rollup-lines.ts:191-196 | An account with a nonzero direct amount is visible even when its subtree cancels to zero |
| `RollupLaws.VisibleIffShows` | src/account-hierarchy-rollup-lines.ts:191-196 | An account is visible if and only if some account of its subtree has a nonzero amount or evidence of its own, or zero lines are included |
| `RollupLaws.ParentIsVisible` | src/account-hierarchy-rollup-lines.ts:191-196 | A visible account's parent is visible |
| `RollupLaws.PostingsAreSubtrees` | src/account-hierarchy-rollup-lines.ts:183-186 | A rollup's posting ids are exactly those supplied in its subtree |
| `RollupRefs.RefsAreSubtrees` | src/account-hierarchy-rollup-lines.ts:187-190 | A rollup lists every source reference as often as the evidence of its subtree does, each account counted once |
| `RollupLaws.AccountsAreVisibleSubtree` | src/account-hierarchy-rollup-lines.ts:197-200 | A rollup's account ids are the account itself and the visible accounts of its subtree |
| `JsonText.QuotePrefixFree` | src/financial-lifecycle.ts:219-222 | Quoted strings over UTF-16 code units, lone surrogates included, are injective and show where they end |
| `JsonReading.StringReads` | src/financial-lifecycle.ts:219-222 | A reader of JSON strings after RFC 8259 reads every printed string back as its units, lone surrogates included, up to its closing quote |
| `JsonReading.TextReads` | src/financial-lifecycle.ts:219-230 | A reader of JSON values after RFC 8259 reads every canonical text as a whole, as its payload, with the members of every object in key order |
| `JsonReading.ValueReads` | src/financial-lifecycle.ts:219-230 | The same inside a larger text: what is read is the value, and exactly the rest remains |
| `CanonicalJsonLaws.PrintPrefixFree` | src/financial-lifecycle.ts:219-230 | Printed values are prefix free: equal texts, followed by whatever may follow a value, have the same values and the same rest |
| `CanonicalJsonLaws.EqualTextsSame` | src/financial-lifecycle.ts:219-230 | Payloads with the same canonical text are equal, objects read as unordered maps, under any key comparison |
| `CanonicalJsonOrder.TextsEqualIffSame` | src/financial-lifecycle.ts:215-230 | When the collation tells an object's keys apart, canonical texts, and so injective checksums, are equal if and only if the payloads are |
| `CanonicalJsonOrder.OrderIndependentIffTieFree` | src/financial-lifecycle.ts:219-230 | A payload's text is that of every equal payload if and only if none of its objects has two keys that collate equal; otherwise some reordering of it prints differently |
| `LifecycleEvents.Journal.AppendFinancialLifecycleEvent` | src/financial-lifecycle.ts:102-186 | The keyed insert and the field-by-field comparison of a taken key |
| `LifecycleEvents.FirstEventStays` | src/financial-lifecycle.ts:124-157 | In every run the log holds under each key exactly the first event appended with it |
| `LifecycleEvents.ReplayOnlyOfFirstIntent` | src/financial-lifecycle.ts:159-185 | A used key changes nothing and is accepted only for the first event's own intent and payload, and for all of it unless its keys collate equal |
| `CashFlowLaws.SummaryReconciles` | src/cash-flow-summary.ts:211-264 | For every ledger with nets of debit less credit and no ambiguous ownership: beginning plus net cash flow is ending, and operating, investing, financing and unclassified make up the net cash flow |
| `CashFlowLaws.OnlyAmbiguityRefuses` | src/cash-flow-summary.ts:247-264 | The reconciliation guard is unreachable: of the two refusals only ambiguous ownership occurs, exactly when a transaction with a cash posting in the period has two documents of a kind |
| `CashFlowLaws.ContributionBalances` | src/cash-flow-summary.ts:211-229 | However a transaction is classified, its activity amounts and its unclassified amount make up its cash movement |
| `CashFlowActivities.UndocumentedEnters` | src/cash-flow-summary.ts:225-232 | A transaction without a document enters each activity with minus the net of its own lines of that activity if and only if it is balanced, all moving lines have roles, and it has one activity or every counterpart is on the other side; otherwise it is unclassified as a whole |
| `CashFlowActivities.OneActivityTakesAll` | src/cash-flow-summary.ts:226-226 | When all moving counterpart lines are of one activity, it gets the whole cash movement and the other two nothing |
| `CashFlowActivities.ReceiptEnters` | src/cash-flow-summary.ts:213-215 | A receipt's transaction enters the receipt's activity with its whole cash movement if and only if it fits the receipt, with just one cash line and one counterpart; otherwise it is unclassified |
| `CashFlowActivities.CorrectionEnters` | src/cash-flow-summary.ts:209-217 | A corrected payment enters each activity with its sign times the correction's part, if and only if the parts make up its amount |
| `CashFlowActivities.PaymentEnters` | src/cash-flow-summary.ts:209-222 | A payment enters each activity with minus its sign times the cleared part, if and only if valid clearing allocations make up its amount and its cash |
| `CashFlowActivities.ActivityTotals` | src/cash-flow-summary.ts:239-243 | Each of the summary's three activities is the sum of what its transactions bring to it, whichever document owns them |
| `CashFlowActivities.KnownLedgerTotals` | src/cash-flow-summary.ts:239-243 | Without documents, and with every cash transaction known, each activity is minus the net of the period's own postings of that activity in cash transactions |
| `CashFlowLaws.AllocatedTotal` | src/cash-flow-summary.ts:212-228 | An allocated transaction resolves to exactly its cash movement, from a correction, from clearing allocations, or from its own lines |
| `CashFlowLaws.AllocationIsBounded` | src/cash-flow-summary.ts:227-228 | A transaction allocated by its own lines gives each activity the sign of the cash movement and at most its size |
| `CashFlowLaws.CashGrouped` | src/cash-flow-summary.ts:98-117 | Grouping by transaction loses no cash posting of the period |
| `CashFlowLaws.AmbiguityBreaksReconciliation` | src/cash-flow-summary.ts:239-240 | A balanced transaction joined to two receipts is counted twice, so the ambiguity test is needed |
| `CashFlowLaws.HandedMeans` | src/cash-flow-summary.ts:79-84 | The recursive query hands an account a role after n steps exactly when its n-th ancestor has it as its policy |
| `CashFlowLaws.LeastDepthIsNearest` | src/cash-flow-summary.ts:79-86 | Keeping the row of least depth gives each account exactly the role of its nearest ancestor, itself included, with a policy |
| `Outbox.Service.AppendEvent` | src/financial-outbox.ts:65-143 | The idempotent append |
| `Outbox.Service.ClaimEvents` | src/financial-outbox.ts:145-183 | A claim leases exactly the oldest claimable rows in its scope, up to its limit, and leaves all others |
| `Outbox.Service.MarkEventPublished` | src/financial-outbox.ts:185-204 | Only a processing row in scope is published |
| `Outbox.Service.MarkEventFailed` | src/financial-outbox.ts:206-233 | Only a processing row in scope is failed, with its retry time or never |
| `OutboxLaws.ClaimTakesOldest` | src/financial-outbox.ts:161-171 | A claim passes over no claimable row created before one it takes, or at the same time with a lower id |
| `OutboxLaws.ClaimTakesUpToLimit` | src/financial-outbox.ts:145-171 | A claim of 1 to 500 events for 5 to 3600 seconds is accepted and takes all claimable rows up to its limit; others are refused |
| `OutboxLaws.ScopesAreIsolated` | src/financial-outbox.ts:50-63 | A service limited to a book or source neither returns nor changes a row of another one |
| `OutboxLaws.AppendsAnsweredIff` | src/financial-outbox.ts:65-143 | After any run an append is accepted if and only if its id is new or was first appended with the same content and book, and a repetition changes nothing |
| `OutboxLaws.AppendedIsTaken` | src/financial-outbox.ts:65-143 | A new event can be taken exactly by scopes of its book and source and from its time on |
| `OutboxLaws.ClaimedIsLeased` | src/financial-outbox.ts:172-176 | A claimed event can be taken again exactly when it is available and the lease given with the claim has run out |
| `OutboxLaws.FailedIsRetried` | src/financial-outbox.ts:206-233 | A failed event is not published and can be taken again exactly from its retry time on, a terminal one never before the last instant of 9999 |
| `OutboxLaws.PublishedIsNotTaken` | src/financial-outbox.ts:185-204 | A published event can never be taken again, whatever commands follow |
| `OutboxLaws.PublishedIsFinal` | src/financial-outbox.ts:185-204 | Over every run a published row stays as it is, and no row's content changes |
| `OutboxLaws.AttemptsCountClaims` | src/financial-outbox.ts:173-175 | Over every run an event's attempt count is the number of claims that returned it |
| `OutboxLaws.TimelyWorkersNeverShare` | src/financial-outbox.ts:145-233 | In any interleaving of workers that report before their leases expire: no two hold the same event, the processing rows are exactly the held ones, and every report is accepted |
| `OutboxLaws.ClaimKeepsExclusiveIff` | src/financial-outbox.ts:157-180 | From any table with exclusive holds, a claim leaves them exclusive if and only if it takes no event that somebody holds |
| `OutboxLaws.CanBeTakenIff` | src/financial-outbox.ts:161-171 | For any table and any row: claims made at a time can return it, after however many others, if and only if it is claimable then; a held row exactly when it is available and its lease has run out |
| `OutboxLaws.LateReportSettlesAnothersClaim` | src/financial-outbox.ts:185-204 | Whenever a claim takes an event that somebody holds, the first holder's late report is accepted, settles the other worker's claim, and every further report of the event fails |
| `FinancialRuntime.RunOnce` | src/financial-runtime.ts:43-77 | A completed run has claimed = published + failed whatever other workers do in between; with nobody else at work it completes exactly when the failing events' retry delays are between a second and a day, settles every claimed row once, and leaves exactly the failing events claimable, each from its own retry time on |
| `FinancialRuntime.Deliver` | src/financial-runtime.ts:48-70 | One event is published, failed with its retry time, or the run stops, including the failure path after a refused publication |
| `FinancialRuntime.SettledRows` | src/financial-runtime.ts:48-70 | After a settled batch each event is published or failed by its own handler and delay, and every other row is untouched |
| `FinancialRuntime.SettledRetries` | src/financial-runtime.ts:48-70 | Of a settled batch exactly the failing events can be taken again, each exactly from the time of its failure plus its own delay |
| `FinancialRuntime.DefaultDelayDoubles` | src/financial-runtime.ts:117-119 | The default delay starts at five seconds, doubles up to an hour, reaches it at the eleventh attempt, and is always a valid delay |
| `BankReconciliation.Service.IngestStatementLine` | src/bank-reconciliation.ts:116-167 | Keyed ingestion of a line and its conflicts |
| `BankReconciliation.Service.MatchStatementLine` | src/bank-reconciliation.ts:169-260 | Matching with replay, version, amount and unique-index refusals |
| `BankReconciliation.Service.UnmatchStatementLine` | src/bank-reconciliation.ts:262-310 | Undoing a match, with its unchecked line update |
| `BankReconciliation.Service.IgnoreStatementLine` | src/bank-reconciliation.ts:312-360 | Ignoring a line, whose versioned receipt outlives a reopening |
| `BankReconciliation.Service.UnignoreStatementLine` | src/bank-reconciliation.ts:362-437 | Reopening an ignored line under its request |
| `BankReconciliationLaws.EveryRunIsValid` | src/bank-reconciliation.ts:169-437 | In every reachable state a line is matched if and only if exactly one active match names it, with the line's nonzero absolute amount, and no transaction is matched twice |
| `BankReconciliationChanges.LineChangesIff` | src/bank-reconciliation.ts:116-437 | In every reachable state: a line appears if and only if it is validly ingested; turns matched if and only if it is matched at its version with a transaction of its signed amount that no active match has; unmatched if and only if its match is undone or it is reopened under a new request; ignored if and only if it is ignored unmatched; nothing else touches its row |
| `BankReconciliationChanges.ActiveMatchWasFound` | src/bank-reconciliation.ts:226-232 | Every active match of a reachable state was made by a command of the run that found its transaction with exactly the amount, sign included, that its line has |
| `BankReconciliationAnswers.MatchCommandsAnsweredIff` | src/bank-reconciliation.ts:181-310 | In every reachable state a match is accepted if and only if it takes effect or repeats the command that made its still active match, and an undoing if and only if it takes effect or repeats the one that undid it |
| `BankReconciliationAnswers.LineCommandsAnsweredIff` | src/bank-reconciliation.ts:312-437 | Ignoring and reopening a line are accepted if and only if they take effect or have the content of the command that changed the line last |
| `BankReconciliationAnswers.IngestionsAnsweredIff` | src/bank-reconciliation.ts:116-167 | An ingestion is accepted if and only if it creates its line or repeats, in the book, the one that created it |
| `BankReconciliationLaws.UnmatchHitsItsLine` | src/bank-reconciliation.ts:300-304 | Undoing an active match changes exactly its one line, which is found matched |
| `BankReconciliationLaws.ActiveLineIndexNeverFires` | src/bank-reconciliation.ts:209-211 | The unique index on active lines never has to refuse a match |
| `BankReconciliationLaws.VersionCountsChanges` | src/bank-reconciliation.ts:249-254 | A line's version is one plus the number of its status changes |
| `BankReconciliationLaws.NoCommandAppliesTwice` | src/bank-reconciliation.ts:181-196 | No ingest, match, unmatch, ignore or unignore takes effect twice, whatever was done in between |
| `BankReconciliationLaws.ImmediateReplayIsAccepted` | src/bank-reconciliation.ts:322-338 | A command sent again at once is answered without a change |
| `CommercialLines.MoneyRoundTrip` | src/commercial-lines.ts:130-156 | Printed money reads back as the same cents |
| `CommercialLines.QuantityRoundTrip` | src/commercial-lines.ts:140-162 | A printed quantity, trailing zeros stripped, reads back as the same scaled number |
| `CommercialLines.UnitRateRoundTrip` | src/commercial-lines.ts:107-118 | A printed unit rate reads back as the same scaled number |
| `CommercialLines.UnitRatePrecisionTwoIff` | src/commercial-lines.ts:107-118 | At precision two a printed rate reads back if and only if it is a whole number of cents, and is refused otherwise |
| `CommercialLinesAccepted.ReadIffWritten` | src/commercial-lines.ts:107-156 | A decimal text is read if and only if it is digits with at most the allowed fraction behind a point, and as exactly the number it writes |
| `CommercialLines.NormalizedLineReadsBack` | src/commercial-lines.ts:41-105 | Every printed part of an accepted line reads back as the number it was accepted with; amount, discount and tax satisfy the line equation, and the extended price is within half a cent of quantity times rate, half up |
| `CommercialLinesAccepted.AcceptedIff` | src/commercial-lines.ts:41-85 | A line is accepted if and only if its texts write a positive amount and quantity, a rate, discount and tax such that quantity times rate, rounded half up to cents, less a discount within it and plus the tax is the amount, quantity and rate come together, and its period is in order |
| `CommercialLinesAccepted.NormalizesTo` | src/commercial-lines.ts:86-105 | It is returned with exactly those numbers in the printers' texts, and with its unit cost and period as they were |
| `CommercialLines.NormalizeIdempotent` | src/commercial-lines.ts:41-105 | Normalising a normalised line at the same precision gives the same line |
| `CommercialLines.SignedMoneyRoundTrip` | src/accounting-basis-projection.ts:105-118 | Signed money texts read back as the same cents, and carry a minus exactly below zero |
| `CommercialLines.SignedMoneyInjective` | src/accounting-basis-projection.ts:114-118 | Different numbers of cents have different texts |
| `EvidenceChunks.ChunkEvidence` | src/attested-settlement-correction.ts:173-179 | The loop over code points of a UTF-16 text returns the specified pieces |
| `EvidenceBytes.EncodedSpells` | src/attested-settlement-correction.ts:173-179 | The bytes by which pieces are measured are those of UTF-8: an independent reader after RFC 3629 reads them as exactly the text's code points, lone surrogates as the replacement character |
| `EvidenceChunks.ChunksAreWhole` | src/attested-settlement-correction.ts:173-179 | For every UTF-16 text, lone surrogates included: the pieces concatenate to it, none is empty, none has more than 2000 bytes of UTF-8, and none begins between the halves of a surrogate pair |
| `EvidenceChunks.EncodedPiecesIff` | src/attested-settlement-correction.ts:173-179 | For any cut of a text into pieces, the encoded pieces in order are the encoded text if and only if no piece begins between the halves of a pair, so keeping pairs is what the loop has to do |
| `EvidenceChunks.FewestPieces` | src/attested-settlement-correction.ts:173-179 | No other contiguous split that keeps pairs whole and stays within the bound uses fewer pieces |

## Left out

- Database connections, savepoints, lock acquisition and connection errors: every command is one atomic step.
- Database triggers, except the one against overlapping periods. The deferred trigger that refuses a statement dated on
  or before its predecessor (`migrations/future-erp/20261021040000_add_bank_statement_lifecycle.sql:134`) would refuse
  some redrafts that the model accepts: the service itself compares only a new draft's date with the latest completed
  statement (`src/bank-statements.ts:194-198`). The balance laws follow predecessor links and use no order of dates.
- Authorisation, approval grants and administrator capabilities, except the different-actor rules of statement completion
  and reopening and the same-actor rule of retirement.
- Input-shape validation: trimming, length limits, date syntax, identifier and currency patterns, reason texts.
- Locale collation is an arbitrary total preorder, SHA-256 an injective function, and scope keys joined by a zero
  character are tuples; identifiers that contain that character are not considered.
- Numbers in JSON payloads are their printed tokens; not-a-number, infinities and negative zero do not occur.
- Journal posting, period drafts and close readiness are parameters: a posting command brings its lines, a close brings
  its readiness with diagnostics and bank rows, a match brings the transaction's bank amount.
- Imports delete ledger postings without asking the posting gate (`src/quickbooks-subledger-import.ts:1120` and `:1310`).
  Certificate runs contain no such step, and a deletion up to a certificate's end would make it differ.
- Pages of certificate totals and banks, bank receipts, and the shape checks on stored certificates and bank evidence.
- Statement selection, activity and list queries; only the history pages move through cursors that must survive commits.
- The joins that find payment documents in the cash-flow query, the sub-cent precision test, since rows arrive in cents,
  and the summary's transaction counts and support status.
- Report line labels, sections, sort order numbers and drilldown tokens; sorting uses an arbitrary comparison of nodes.
- Decimal texts inside the rollup: amounts arrive in cents.
- Item, description, tax code and dimension fields of commercial lines pass through unchanged.
- Several sources in one book of bank reconciliation: the model has the one source of the service.
- Outbox rows that lifecycle commands append besides their own tables; the outbox is modelled on its own.
- Routing of runtime handlers by event type: a handler is whether it succeeds.
- The settlement plan and the balance updates of `execute` in the attested settlement correction: long lists of
  independent rejections, and triggers that are not part of this model.
- QuickBooks synchronisation, preflight, parity snapshots, schema manifests and fixtures.
- The order of a claim's returned events, which the database leaves open: the model returns them oldest first, and no law
  uses it. A worker run reads one clock value per event for its publication or its retry time.
