# Verified model of the finance core

This project models the deterministic core of the household finance system in Dafny and proves what the core is for.
`dafny verify dfyconfig.toml` checks all of it. There is one module per component, one file per module.

- **Money and rounding** (`Money`, `Rounding`, `Results`): 64-bit minor units with checked addition and subtraction,
  and exact half-up rounding.
- **Debt engine** (`DebtContract`, `DebtSimulator`, `DebtRows`, `DebtAccounting`, `DebtExtraPayments`, `DebtComparison`,
  `DebtPayoffBound`, `DebtAnnuity`): the month loop with its four repayment rules, restrictions, fees and extra payments.
  The month loop is stated over an abstract month rule; the source's rule is one instance of it. The relational proofs
  use nothing about interest but that it grows with the balance and is zero for zero.
- **Payoff planner** (`PayoffPlan`, `PayoffFields`, `PayoffOptimality`): avalanche and snowball allocation against every
  feasible one.
- **Snapshot arithmetic** (`Ledger`, `History`, `HistoryRange`, `HistoryPartial`, `Residuals`, `Snapshot`, `SafeToSpend`,
  `Goals`, `GoalOrder`, `GoalFields`): rebuilding past balances, netting overlapping commitments, and sharing monthly capacity
  over goals.
- **Duplicate detection** (`StringOrder`, `Duplicates`, `DuplicateWindows`, `DuplicateReport`, `DuplicateFields`): signature
  classes cut into greedy time windows.
- **Scheduled jobs** (`JobRunStore`, `JobRuns`, `Calendar`, `SchedulerLoop`, `MonthlySchedule`): the persisted run rows as a
  state machine, and the monthly trigger on the civil calendar.
- **Authentication** (`Totp`, `AuthTables`, `AuthEffects`, `SecondFactor`, `SecondFactorSteps`, `SecondFactorRuns`,
  `SecondFactorCounters`, `SecondFactorOrigins`, `SecondFactorRaces`, `Sessions`, `SessionInterleavings`, `SessionSteps`,
  `SessionOverlap`, `HouseholdRoles`, `LastOwner`): one-time codes (section 5.2 of RFC 6238 over RFC 4226), two-factor login
  under any interleaving with resets and disables, the sliding session lifetime, undisturbed and under concurrent requests, and
  the last-owner rule under its lock.
- **Decimal text** (`Decimals`, `MoneyText`, `CurrencyText`, `MoneyTextProperties`): reading and printing amounts and percentages.
- **Limiters** (`FixedWindowLimiter`, `LoginThrottle`, `LoginAttempts`, `LoginRequests`, `LoginOverlap`): calls per aligned
  minute, and failed logins per address and user name, for attempts one after the other and for requests in flight together.
- **Shared mathematics** (`Integers`, `Durations`, `Maps`, `Sorting`, `Counting`).

Conventions. A method is the source's step-by-step code; its contract ties it to a function, and the lemmas are about that
function. A `class` holds the fields that the source updates in place, or the rows of its tables. Protocols are state
machines: `Next` is one committed transaction, statement or read, a step that is not enabled does nothing, and theorems
quantify over every start state that meets the stated condition and every finite sequence of steps. What each transaction and
each result is, field by field and with the source's limits written out, is stated apart from the functions that compute it.
Instants and durations are whole nanoseconds. Interest rates are exact non-negative reals.

Findings about the code:

- A one-time extra payment never costs months or interest, and the error returns behind the three subtractions of the
  comparison cannot be reached (`DebtComparison.CompareOneTimeExtra`).
- Rebuilding an account fails silently if a later account has the same id: the earlier one keeps its current balance and
  stays visible (`History.ShadowedAccountIsNotRebuilt`). `History.ShadowedAccountIsUntouched` says exactly when that is
  nevertheless right.
- The report period of an instant is the preceding month exactly when that month has the instant's day of the month. All
  triggers fall on the first, so it always is for them (`MonthlySchedule.PeriodIsPrecedingMonthIff`).
- A job row left running by a lost answer or a failed finish blocks its key until the next restart
  (`JobRuns.OrphanWaitsForRestart`).
- In the first minute of the clock's zero time the fixed-window limiter admits every call
  (`FixedWindowLimiter.ZeroMinuteIsUnlimited`).
- That limiter reads its clock before it takes the lock, so calls can be served in another order than their readings. A
  minute then admits up to the limit once per visit, a visit being a longest block of consecutive calls that fall in it
  (`FixedWindowLimiter.AdmittedPerVisit`). So a trace keeps every limit exactly if it visits the minute at most once
  (`FixedWindowLimiter.LimitHoldsIffOneVisit`), as it does when the readings are in order, and out of order there is no bound
  (`FixedWindowLimiter.StaleReadingsReopenTheWindow`).
- The login throttle checks and records in separate critical sections, with the password check between them. With at most k
  requests of an address or user name in flight together, a bucket counts up to maxFailures + k - 1 failures and no more
  (`LoginRequests.BucketsStayWithinTheOverlap`), and that many do pass (`LoginOverlap.OverlapBoundIsReached`), for a user name
  unless the table has a single entry (`LoginOverlap.SingleEntryCountsNoName`). One at a time
  the limit itself holds (`LoginRequests.OneAtATime`).
- A nearly full table can fail to record a failure, and then a user name gets more attempts than the limit
  (`LoginAttempts.UserBoundCanFail`). The failure of an admitted attempt is recorded for its user name exactly if the name's or the
  address's bucket is live or two entries are free (`LoginAttempts.UserFailureRecordedIff`); where all are recorded the bound
  holds. An address's own failure is always recorded if attempts come one after the other, but not if other requests can fill the
  table in between (`LoginOverlap.UnrecordedFailureEscapesTheBound`).
- A login under way outlasts a password or second-factor reset if its challenge is stored only afterwards
  (`SecondFactorRaces.LoginsThatOutlastAReset`). A recovery login under way outlasts a disable, and its session becomes usable
  once the user is enabled again (`SecondFactorRaces.RecoveryDuringADisable`).
- Of overlapping requests on one session a delayed one moves the recorded last use back exactly when it touches with an older
  reading than the record (`SessionInterleavings.UseRunsBackIff`), and that can end a session in use
  (`SessionOverlap.LateTouchEndsASessionInUse`). `SessionOverlap.SafeExactly` says which gaps between readings are safe for
  which delays: gap + delay + the larger of delay and five minutes (less a nanosecond) must stay under 30 minutes.
- 25 minutes is the exact gap between requests that keeps a session alive under the 30-minute idle timeout, because use is
  recorded only every five minutes (`Sessions.SteadyUseStaysValid`, `Sessions.LongerGapCanFail`).

## Model

| member | source | states |
|---|---|---|
| `Money.Add` | pkg/money/money.go:18-27 | the true sum in the shared currency; fails with a currency mismatch or an overflow exactly when the currencies differ or the sum leaves 64 bits |
| `Money.Sub` | pkg/money/money.go:29-38 | the true difference in the shared currency; fails with a currency mismatch or an overflow exactly when the currencies differ or it leaves 64 bits |
| `Money.SubUndoesAdd` | pkg/money/money.go:18-38 | a successful addition is undone by subtraction and a successful subtraction by addition, up to both ends of the 64-bit range |
| `Rounding.HalfUpIsNearest` | internal/debt/decimal.go:26-36 | the rounded amount is within half a unit, halves going up |
| `Rounding.MultiplyAndRoundMonotone` | internal/debt/decimal.go:10-16 | a rounded share of an amount grows with the amount and is zero for zero, for every non-negative rate |
| `Rounding.TwoStageRoundsMonotonically` | internal/debt/decimal.go:10-36 | the same when any monotone rounding of the product comes before the half-up one, as with a bounded decimal precision |
| `DebtContract.CompoundFactor` | internal/debt/amortization.go:18-23 | the month-by-month product is the power (1+r)^n |
| `DebtContract.AnnuityPaymentMinor` | internal/debt/amortization.go:9-42 | the level payment is the half-up rounding of P/n for a zero rate and of P*r*F/(F-1) otherwise, or an overflow |
| `DebtSimulator.RunMonths` | internal/debt/simulator.go:62-93 | the month loop computes the recursive run, with the same first error |
| `DebtSimulator.SimulateDebt` | internal/debt/simulator.go:18-94 | validation, the fixed amounts of the four repayment rules and the loop give the outcome that all theorems below are about, for recurring and one-time extras |
| `DebtRows.RowsAreExact` | internal/debt/simulator.go:62-130 | in every row of every successful simulation the extra is exactly the smaller of the offer and what the scheduled principal leaves, after the restricted months and for a one-time extra in its month, interest and fee are the half-up shares at the contract's rates, and the scheduled payment is that of the repayment rule, capped by what is owed |
| `DebtRows.RowsEndAtZero` | internal/debt/simulator.go:62-91 | the last row is the first that closes at zero, and comes within the term or 1200 months |
| `DebtRows.RefusedExactly` | internal/debt/validation.go:10-52 | which contracts are refused for currencies, for a missing rate or as invalid, in that precedence; every other failure is one of a simulated month |
| `DebtSimulator.RulesAreMonotone` | internal/debt/simulator.go:96-116 | for a valid contract interest and fee are monotone and zero for zero, and the fixed amounts are in range |
| `DebtAccounting.RunKeepsTheBooks` | internal/debt/simulator.go:62-93 | every successful run chains opening to closing balances down to zero and pays off exactly the balance it started from; its totals are the sums of its rows |
| `DebtAccounting.SimulationKeepsTheBooks` | internal/debt/simulator.go:26-130 | principal paid equals the initial balance, totals are non-negative sums of the rows, and each row is principal plus interest, with extras only after the restricted months and at most the offer |
| `DebtExtraPayments.SimulatedMonthsAreMonotone` | internal/debt/simulator.go:96-130 | in each of the four rules a month that works for a balance works for a smaller balance and a larger extra, with no more interest and no higher closing balance, fee overflow aside |
| `DebtExtraPayments.ExtraNeverHurts` | internal/debt/simulator.go:62-93 | if the run with the pointwise smaller extras succeeds so does the run with the larger ones, fee overflow aside, with pointwise lower balances, no more months and no more interest |
| `DebtComparison.LargerExtraNeverHurts` | internal/debt/simulator.go:18-94 | the same for whole contracts: of two one-time or recurring offers the pointwise larger one is no worse |
| `DebtComparison.ExtraNeverHurtsContract` | internal/debt/simulator.go:18-94 | and any one-time or recurring extra against none, where the baseline pays no fees |
| `DebtComparison.OnlyOneMonthPaysExtra` | internal/debt/simulator.go:68-72 | a one-time extra is applied in its month only and at most once |
| `DebtComparison.FirstExtra` | internal/appapi/debt_simulation.go:57-65 | finds the first row that carries extra principal, zeros if there is none |
| `DebtComparison.CompareOneTimeExtra` | internal/appapi/debt_simulation.go:19-83 | months saved and interest saved are non-negative, only the two simulations can fail and the second only on fees, and the applied amount is the smaller of the extra and what the scheduled principal of the first unrestricted month leaves, if that month is reached, and otherwise nothing |
| `DebtPayoffBound.RefusesExactlyWhenInterestEatsPayment` | internal/debt/amortization.go:68-94 | a revolving or custom month refuses exactly when the configured payment does not exceed the interest due |
| `DebtPayoffBound.PayoffWithin` | internal/debt/simulator.go:62-91 | a rule that takes at least a fixed step off every balance pays off within any number of months that covers the balance, whatever the extras; otherwise only overflow or the month limit stops it |
| `DebtPayoffBound.ConfiguredContractRefused` | internal/debt/amortization.go:68-94 | a contract whose payment does not exceed the first month's interest is refused as non-amortizing, whatever the extras |
| `DebtPayoffBound.ConfiguredContractPaidWithin` | internal/debt/simulator.go:62-91 | any other revolving or custom contract pays off within ceil(B/(P-i(B))) months, whatever the extras, so only the limit of 1200 months or overflow can still fail it |
| `DebtPayoffBound.ConfiguredContractsFit` | internal/debt/simulator.go:26-94 | and neither can if those months are within the limit, balance plus first-month interest fits 64 bits, and so do that many times the first-month interest and the largest fee the offer can cost |
| `DebtPayoffBound.PrincipalNeverDecreases` | internal/debt/amortization.go:68-94 | without extras scheduled principal never decreases until the final payment, for any monotone interest |
| `DebtPayoffBound.ConfiguredPrincipalNeverDecreases` | internal/debt/simulator.go:18-94 | the same for a whole revolving or custom contract |
| `DebtAnnuity.LevelPaymentEquation` | internal/debt/amortization.go:25-40 | the level payment satisfies (F-1)a = P*r*F |
| `DebtAnnuity.ExactClosedForm` | internal/debt/amortization.go:9-42 | the exact schedule b(k+1) = (1+r)b(k)-a has the closed form (F-1)b(k) = P(F-(1+r)^k) |
| `DebtAnnuity.ExactScheduleEndsAtZero` | internal/debt/amortization.go:9-42 | the exact schedule never goes negative within the term and ends at zero |
| `DebtAnnuity.LevelPaymentBounds` | internal/debt/amortization.go:9-42 | the level payment covers the first month's interest and never exceeds balance plus that interest |
| `DebtAnnuity.AnnuityRecurrence` | internal/debt/simulator.go:96-130 | without extras each annuity balance is max(0, B + round(rB) - a) until the last month clears it |
| `DebtAnnuity.AnnuityRoundingError` | internal/debt/amortization.go:9-57 | after every month k of the term the rounded balance is within the sum over j<k of (1+r)^j minor units of the exact schedule, the clamp at zero included |
| `DebtAnnuity.TermContractsRepayWithinTerm` | internal/debt/simulator.go:46-94 | a valid annuity or equal-principal contract is repaid within its remaining term whatever the extras; only overflow can fail it |
| `DebtAnnuity.TermContractsFit` | internal/debt/simulator.go:26-94 | it cannot fail at all if balance plus first-month interest over the whole term fits 64 bits and so do that many of the largest fee the offer can cost |
| `DebtAnnuity.NoExtraNeedsNoFeeRoom` | internal/debt/simulator.go:111-117 | that fee is zero without a fee rate or without an extra |
| `PayoffPlan.CollectCandidates` | internal/debt/strategy.go:38-55 | collects the owing debts in input order or reports the first unusable one |
| `PayoffPlan.Allocate` | internal/debt/strategy.go:70-84 | the shrinking remainder hands out the greedy shares and lists the positive ones |
| `PayoffPlan.BuildPayoffPlan` | internal/debt/strategy.go:11-89 | which error comes first, the shortfall case, and otherwise the greedy allocation of liquid minus floor over the sorted candidates |
| `PayoffFields.RefusedForTheFirst` | internal/debt/strategy.go:38-55 | a plan is refused exactly for the first active debt with something owed in another currency or, under avalanche, without a rate, and with the error of that debt |
| `PayoffFields.CandidatesInOrder` | internal/debt/strategy.go:57-68 | the candidates are the active debts that owe something, each as often as given, by falling rate or by rising balance and then by id |
| `PayoffFields.PlanPaysInOrder` | internal/debt/strategy.go:36-84 | the listed payments clear these debts one after the other, in full but for the last, until the budget is used up |
| `PayoffOptimality.PlanSpendsEverything` | internal/debt/strategy.go:57-84 | the plan is a feasible allocation and hands out exactly the smaller of the budget and what is owed |
| `PayoffOptimality.PlanListsExactlyTheBudget` | internal/debt/strategy.go:36-84 | the listed amounts add up to min(available extra, sum of eligible balances) |
| `PayoffOptimality.AvalancheMaximisesRate` | internal/debt/strategy.go:36-84 | no feasible allocation, in any order, has a larger sum of amount times APR than the avalanche plan |
| `PayoffOptimality.SnowballMaximisesCleared` | internal/debt/strategy.go:36-84 | no feasible allocation clears more debts in full than the snowball plan |
| `PayoffOptimality.PlanIgnoresInputOrder` | internal/debt/strategy.go:38-68 | with distinct ids the order of candidates depends only on which debts there are |
| `Sorting.StableSortSorts` | internal/debt/strategy.go:57-68 | sorting orders the elements and neither drops nor invents any |
| `Sorting.SortedIsUnique` | internal/dataquality/analyzer.go:199-212 | without ties the sorted arrangement of a multiset is unique, however it is computed |
| `History.IndexById` | internal/appapi/api.go:777-780 | the index table points to the last account of each id |
| `History.Reconstruct` | internal/appapi/api.go:775-849 | the reversal loop and the hiding of invalid accounts, with the same first error and partial flag |
| `HistoryPartial.PartialIff` | internal/appapi/api.go:775-849 | the result is partial exactly if it was before or some transaction from the end on has a hidden amount, modifies a balance, is of unknown kind, or moves money on an id no account has or in another currency than the account's |
| `History.ReversalInvertsReplay` | internal/appapi/api.go:782-842 | reversing the later transactions and replaying them is the identity on every account none of them spoils, and exactly the spoiled ids are marked |
| `HistoryRange.ReversalSucceedsIff` | internal/appapi/api.go:782-842 | a reconstruction succeeds exactly if after every adjustment the running balance of the adjusted account fits 64 bits; it fails with nothing but an overflow |
| `History.RebuiltAccount` | internal/appapi/api.go:775-849 | an account that is last of its id comes back hidden exactly if it was hidden or spoiled; otherwise replaying the later transactions in any order gives its current balance |
| `History.RebuiltAnyOrder` | internal/appapi/api.go:775-849 | two orders of the same transactions that stay in range rebuild the same visible account |
| `History.ShadowedAccountIsUntouched` | internal/appapi/api.go:775-784 | an account that shares its id with a later one comes back as it was, and replay is right for it exactly if the later transactions have no net effect on the id |
| `History.ShadowedAccountIsNotRebuilt` | internal/appapi/api.go:775-849 | a concrete ledger with a repeated id for which replay does not give the current balance back |
| `Snapshot.ActualByCategory` | internal/appapi/api.go:624-639 | succeeds exactly if every expense and refund is in the plan's currency and every running category total fits; then holds each category's total |
| `Snapshot.SpentOneMore` | internal/appapi/api.go:624-639 | an event counts towards a category exactly if it is an expense or a refund of that category |
| `Snapshot.CalculateBudgetStatus` | internal/appapi/api.go:615-685 | succeeds exactly if every line is well formed and every running reserve fits; reports for each line what was spent, what remains and the ratio of spent to planned, warns once about each semantic group without a category, and each reserve is the sum over its lines of the positive part of planned minus actual |
| `Snapshot.ReservedOneMore` | internal/appapi/api.go:641-685 | a line adds to its reserve the positive part of what it plans less the spending of its category, which a line without a category has none of |
| `Snapshot.PaidDebtCommitments` | internal/appapi/api.go:737-773 | the sum of the magnitudes of transfers into the household's debt accounts in its currency, partial exactly if one is in another currency |
| `Snapshot.PaidOneMore` | internal/appapi/api.go:737-773 | a transaction counts exactly if it is a transfer into a debt account in the currency, with the magnitude of what arrives there |
| `Residuals.ResidualCommitment` | internal/appapi/api.go:901-910 | what is left of a commitment is the positive part of the difference; fails exactly on two currencies or on a difference that leaves 64 bits, and with which error |
| `Snapshot.NetCommitments` | internal/appapi/api.go:529-572 | how scheduled debt, debt reserve, payments made, hard goals and goal reserve net against each other; fails exactly on a currency that differs or on mandatory expenses that leave 64 bits |
| `Snapshot.NettingCountsOnce` | internal/appapi/api.go:529-572 | the netted deductions add up to max(0, max(reserve, scheduled) - paid) for debts and max(reserve, hard goals) for goals |
| `Snapshot.SafeFromCommitments` | internal/appapi/api.go:529-584 | safe to spend is liquid minus floor, essential, saving and investment, the larger goal claim and the larger debt claim less what was paid: nothing is reserved twice; fails exactly on a currency that differs or where mandatory expenses or the result leave 64 bits |
| `Snapshot.SafeFromPlan` | internal/appapi/api.go:529-773 | the same from budget lines, events and transfers: the amount is the liquid pool minus the floor, what is planned and unspent, and each obligation once, and it fails exactly where some running sum or the result does not fit or the plan's currency is not the household's |
| `Snapshot.PayingWhatIsOwedIsNeutral` | internal/appapi/api.go:529-572 | paying a committed debt leaves safe to spend unchanged exactly as long as the payment stays within what is owed |
| `SafeToSpend.DeductAll` | internal/budget/safe_to_spend.go:62-75 | the deduction loop fails exactly if a running balance leaves 64 bits |
| `SafeToSpend.CalculateSafeToSpend` | internal/budget/safe_to_spend.go:34-82 | fails on a currency that differs or a running balance that does not fit, else the liquid pool less mandatory expenses, debt unless it is reserved already, essential reserve, emergency gap and hard goals, a deficit exactly if it is negative |
| `Goals.MonthsRemainingIsLeast` | internal/goals/service.go:129-141 | zero exactly for targets not in the future, else the least positive number of months after which the same day has reached the target's |
| `Goals.DivisionGuard` | internal/goals/service.go:143-154 | the division guard passes exactly the products that fit |
| `Goals.RequiredIsLeast` | internal/goals/service.go:60-66 | the required contribution is the least whole amount whose multiple meets the gap |
| `Goals.ProjectionIsHonest` | internal/goals/service.go:19-104 | completed, infeasible, conflicting, on track and behind say what they should: on track implies no gap, behind implies a gap, and shortfall is requirement beyond capacity |
| `GoalFields.RefusedExactly` | internal/goals/service.go:19-118 | which goals are refused for a currency, for a negative amount or for arithmetic, in that precedence; with a capacity that is not negative only the planned contributions can overflow |
| `Goals.ProjectGoals` | internal/appapi/api.go:687-727 | the loop over the sorted goals is the recursive waterfall over the capacity |
| `Goals.GoalsComeSorted` | internal/appapi/api.go:692-701 | goals come out as a permutation sorted by priority, date and id |
| `GoalOrder.GoalsAreServedInOrder` | internal/appapi/api.go:687-727 | the items of a successful projection are the goals, each once; no item has a larger priority number than a later one, with equal priority no later target date, and with equal date no larger id |
| `Goals.ShortfallsAddUp` | internal/appapi/api.go:702-725 | the shortfalls of a shared list add up to what its requirements exceed the capacity by |
| `Goals.SharingCapacity` | internal/appapi/api.go:687-727 | total shortfall is max(sum of requirements - capacity, 0), and a goal conflicts exactly when its requirement is positive and the running sum through it exceeds capacity |
| `GoalFields.GoalsAreProjectedIff` | internal/appapi/api.go:687-727 | goals are projected exactly if each is in the currency of the cashflow, has no negative amount, and its planned contributions fit |
| `GoalFields.GoalsShareTheCashflow` | internal/appapi/api.go:687-727 | the total shortfall is what the requirements exceed max(net cashflow, 0) by |
| `Duplicates.WindowEnd` | internal/dataquality/analyzer.go:177-180 | the inner loop stops one past the last transaction within the window of the first |
| `Duplicates.CutIntoGroups` | internal/dataquality/analyzer.go:175-196 | the outer loop reports the greedy windows that hold at least two transactions |
| `Duplicates.ClassesOf` | internal/dataquality/analyzer.go:155-162 | files every income, expense and transfer under its signature, in input order, and nothing else |
| `Duplicates.CollectGroups` | internal/dataquality/analyzer.go:164-197 | visits every class once, in whatever order the map yields |
| `Duplicates.DuplicateGroups` | internal/dataquality/analyzer.go:154-213 | the result is a report: classes arranged by time and id, cut greedily, all groups sorted by start |
| `DuplicateWindows.WindowsPartition` | internal/dataquality/analyzer.go:175-196 | windows are consecutive, lose nothing and span at most the window |
| `DuplicateWindows.GreedyUsesFewestWindows` | internal/dataquality/analyzer.go:175-196 | no choice of window positions covers a class with fewer windows |
| `DuplicateWindows.GreedyOpeningsCover` | internal/dataquality/analyzer.go:175-196 | the greedy openings are such a choice, so the minimum is attained |
| `DuplicateWindows.CloseGivesGroup` | internal/dataquality/analyzer.go:175-196 | some window of a class holds two transactions exactly when two of its transactions are close |
| `DuplicateReport.EveryGroupIsSound` | internal/dataquality/analyzer.go:154-213 | every reported group is two or more transactions of one signature within the window, with sorted ids and the right first and last instant |
| `DuplicateReport.ClassReportedIffTwoClose` | internal/dataquality/analyzer.go:154-213 | a signature class yields a group if and only if two of its transactions lie within the window |
| `DuplicateReport.GroupsAreDisjoint` | internal/dataquality/analyzer.go:154-213 | over all groups together no id appears more often than in the input |
| `DuplicateReport.ReportIgnoresOrder` | internal/dataquality/analyzer.go:164-212 | with unique ids the report depends only on the multiset of transactions, not on input, map or sort order |
| `DuplicateFields.GroupsReportAlikeRuns` | internal/dataquality/analyzer.go:154-230 | the transactions behind a reported group agree in kind, category, accounts, source amount and currency, presence and value of a destination amount and normalised comment, and lie within the window |
| `DuplicateFields.AlikePairIsReported` | internal/dataquality/analyzer.go:154-230 | any two considered transactions that agree in all of these and lie within the window make some group of transactions that agree with them |
| `DuplicateFields.GroupsComeInOrder` | internal/dataquality/analyzer.go:199-212 | groups come by their first instant, and with equal instants by their first id |
| `StringOrder.TextLessIff` | internal/dataquality/analyzer.go:169-174 | the order of ids: one text is before another exactly if it is a proper prefix or has the smaller character where they first part |
| `JobRunStore.RunStore.Claim` | internal/store/sqlc/job_runs.sql.go:14-37 | claims exactly a key never tried or failed last, and then resets its row to running |
| `JobRunStore.RunStore.Finish` | internal/scheduler/postgres.go:45-76 | rejects invalid outcomes, finishes exactly a running row and reports any other as not claimed |
| `JobRunStore.RecoveryInterruptsExactlyTheRunning` | internal/store/sqlc/job_runs.sql.go:171-178 | after a recovery nothing is running, exactly the running rows changed and can be claimed again, the check constraint still holds, and a second recovery changes nothing |
| `JobRunStore.RunStore.RunDue` | internal/scheduler/scheduler.go:155-189 | a job executes exactly if its claim succeeds and its outcome is what gets recorded |
| `JobRuns.RunsKeepKeyInv` | internal/scheduler/scheduler.go:155-189 | over all interleavings of claims, finishes, failed statements, crashes and restarts every row satisfies the table's check constraint and a worker's row is running |
| `JobRuns.AtMostOneWorkerAndOneSuccess` | internal/store/sqlc/job_runs.sql.go:14-37 | each key has at most one worker in flight and at most one recorded success |
| `JobRuns.FinishUpdatesExactlyOneRow` | internal/store/sqlc/job_runs.sql.go:61-70 | a claimed worker's finish finds its row running and changes that row alone |
| `JobRuns.SuccessIsFinal` | internal/store/sqlc/job_runs.sql.go:14-37 | a succeeded row never changes and its key never runs again |
| `JobRuns.OrphanWaitsForRestart` | internal/scheduler/scheduler.go:155-189 | a running row without a worker stays as it is, unclaimable, until a recovery |
| `JobRuns.OrphanedExactlyBy` | internal/scheduler/scheduler.go:155-189 | in every run a row comes to be running without a worker exactly by a claim whose answer is lost, a finishing statement that fails, or a crash |
| `JobRuns.RestartFreesUnfinishedRuns` | cmd/finance-core/application.go:105-108 | after a restart exactly the runs that had not succeeded can be claimed, and finished rows are untouched |
| `JobRuns.RecoveryBesideLiveWorkerBreaksTheClaim` | cmd/finance-core/application.go:105-152 | recovering while a worker lives would let its key be claimed twice at once, which is why recovery precedes the jobs |
| `Calendar.MonthOf` | internal/scheduler/scheduler.go:82-98 | every day lies in the month returned for it |
| `Calendar.OneMonthBack` | cmd/finance-core/application.go:196-198 | one calendar month back is the preceding month exactly when that month has the day, else the day spills into the same month |
| `Calendar.YearLength` | internal/scheduler/scheduler.go:82-98 | years have 365 days and those divisible by 4, but not by 100 unless by 400, have 366 |
| `Calendar.YearStart` | internal/scheduler/scheduler.go:82-98 | the first of January of every year, before or after 1970, in closed form |
| `Calendar.MonthStartInYear` | internal/scheduler/scheduler.go:82-98 | where each month of a year begins |
| `MonthlySchedule.NewMonthlySchedule` | internal/scheduler/scheduler.go:75-80 | accepts exactly the valid times of day |
| `MonthlySchedule.NoTriggerBetween` | internal/scheduler/scheduler.go:82-98 | LatestDue(t) <= t < Next(t) and no monthly trigger lies strictly between them |
| `MonthlySchedule.NextOfLatestDue` | internal/scheduler/scheduler.go:82-98 | the next trigger of the latest due one is the next trigger of the instant |
| `MonthlySchedule.TriggerReportsPrecedingMonth` | cmd/finance-core/application.go:196-198 | a trigger reports on the month just ended, also across a year end |
| `MonthlySchedule.PeriodIsPrecedingMonthIff` | cmd/finance-core/application.go:196-198 | for any instant the period is the preceding month exactly when that month has the local day |
| `MonthlySchedule.LateTriggerReportsItsOwnMonth` | cmd/finance-core/application.go:196-198 | a trigger on 31 March would report on March |
| `MonthlySchedule.SuccessivePeriods` | internal/scheduler/scheduler.go:82-98 | the periods of successive triggers are consecutive months |
| `MonthlySchedule.MonthlyLoopCoversEachMonthOnce` | internal/scheduler/scheduler.go:191-224 | the monthly loop never reports a month twice, and reports every month exactly when each round ends before the following trigger |
| `SchedulerLoop.RunLoop` | internal/scheduler/scheduler.go:191-224 | start-up runs the latest due trigger and every round the next trigger after its clock reading |
| `SchedulerLoop.LoopCoversEachPeriodOnce` | internal/scheduler/scheduler.go:137-224 | the same coverage for any schedule whose periods follow its triggers |
| `Totp.VerifyTOTP` | internal/auth/totp.go:44-69 | the search over the current, previous and next step is the acceptance function |
| `Totp.Verify` | internal/auth/totp.go:56-68 | an accepted counter is within one step of now and greater than the last one |
| `Totp.AcceptedIffSomeCounterFits` | internal/auth/totp.go:44-69 | a well-formed code is accepted if and only if it fits an unused counter of the window |
| `Totp.RecordedCounterIsSpent` | internal/auth/totp.go:57-60 | once recorded a counter is never accepted again, nor an earlier one |
| `AuthTables.AuthStore.ConsumeChallenge` | internal/auth/postgres_store.go:532-550 | consumes exactly an open challenge of the right kind |
| `AuthTables.AuthStore.CompleteTOTPLogin` | internal/auth/postgres_store.go:383-419 | one transaction: challenge consumed, counter advanced and session inserted, or nothing at all |
| `AuthEffects.CodeLoginEffect` | internal/auth/postgres_store.go:383-419 | commits exactly for an active, enrolled user of an open login challenge with a larger counter; uses up the challenge, moves that user's counter and adds one unrevoked session of that user for 12 hours from now, and nothing else changes |
| `AuthTables.AuthStore.CompleteRecoveryLogin` | internal/auth/postgres_store.go:421-456 | one transaction: challenge and recovery code consumed and session inserted, or nothing at all |
| `AuthEffects.RecoveryLoginEffect` | internal/auth/postgres_store.go:421-456 | commits exactly for an open login challenge and an unspent code of its user; uses both up and adds one session of that user, and nothing else changes |
| `AuthTables.AuthStore.CompleteEnrollment` | internal/auth/postgres_store.go:322-381 | one transaction: secret, counter and fresh recovery codes stored for a user not yet enrolled and session inserted, or nothing at all |
| `AuthEffects.EnrolmentEffect` | internal/auth/postgres_store.go:322-381 | commits exactly for an active user not yet enrolled with an open enrolment challenge; stores its secret and the counter, replaces the user's recovery codes on fresh rows and adds one session of that user, and nothing else changes |
| `AuthTables.AuthStore.ResetUserPassword` | internal/auth/maintenance.go:15-57 | an active user's password is replaced, its sessions are revoked and its challenges removed; nothing changes for anyone else |
| `AuthTables.AuthStore.ResetUserTotp` | internal/auth/maintenance.go:59-97 | an active user loses secret, counter, enrolment, recovery codes, challenges and sessions |
| `AuthEffects.PasswordResetEffect` | internal/auth/maintenance.go:15-57 | exactly the user's sessions are revoked and exactly its challenges gone; only an active user is reset |
| `AuthEffects.TotpResetEffect` | internal/auth/maintenance.go:59-97 | the same, with secret, counter, enrolment and recovery codes of that user cleared |
| `AuthEffects.DisableAndEnableEffect` | internal/auth/rbac_store.go:150-246 | a disable sets the flag and revokes exactly the user's sessions, an enable clears the flag |
| `SecondFactorSteps.BeginExactly` | internal/auth/service.go:78-133 | a login begins exactly for an active user whose current password is given; who has a usable second factor gets a login challenge and all others one to enrol, for five minutes |
| `SecondFactorSteps.SeeExactly` | internal/auth/postgres_store.go:163-172 | a challenge is read exactly while it is unused and has not expired |
| `SecondFactorSteps.VerifyExactly` | internal/auth/totp.go:44-69 | a six-digit code is accepted exactly if it fits a counter of the thirty-second step of now, the one before or the one after that is not negative and after the last one; the current counter is preferred, then the previous one |
| `SecondFactorSteps.ProveExactly` | internal/auth/service.go:175-229 | a code is proved exactly for an active, enrolled user of a login challenge, against the secret and last counter on record |
| `SecondFactorSteps.RecoverExactly` | internal/auth/service.go:175-229 | a recovery code goes on to its transaction exactly for an active, enrolled user of a login challenge |
| `SecondFactorSteps.EnrolExactly` | internal/auth/service.go:135-173 | an enrolment is proved exactly against the pending secret of its challenge |
| `SecondFactorSteps.CompleteExactly` | internal/auth/service.go:135-229 | a proved request ends with the transaction of its kind under its own token, and is over whether or not that commits |
| `SecondFactorRuns.ChallengeYieldsAtMostOneSession` | internal/auth/postgres_store.go:322-456 | over all interleavings of logins, enrolments, verifications, recoveries, resets, disables and enables each challenge produces at most one session |
| `SecondFactorRuns.RecoveryCodeYieldsAtMostOneSession` | internal/auth/postgres_store.go:421-456 | over all interleavings each recovery code produces at most one session |
| `SecondFactorCounters.AcceptedCountersIncrease` | internal/auth/postgres_store.go:383-419 | between two enrolments a user's accepted counters strictly increase, the enrolling one included |
| `SecondFactorCounters.CompletedCodeMatchesCurrentSecret` | internal/auth/service.go:175-229 | however stale the reads, a login completed by code was verified against the secret the user is enrolled with at completion, within one time step |
| `SecondFactorCounters.CodeLoginsAreBounded` | internal/auth/totp.go:44-69 | logins by code made in time steps s1 to s2 of one enrolment are at most s2-s1+3 |
| `SecondFactorCounters.SessionsComeFromTheLog` | internal/auth/postgres_store.go:556-568 | every session row a run adds is one of the logged completions, and belongs to the user of that completion, who is the user of the consumed challenge |
| `SecondFactorOrigins.NoSessionWithoutPassword` | internal/auth/service.go:78-133 | over all interleavings every session issued for a challenge made in the run goes back to a login of that session's user, begun with the password on record at that moment |
| `SecondFactorCounters.ResetCutsOff` | internal/auth/maintenance.go:15-116 | a reset revokes all sessions and no challenge stored before it ever yields a session again; a password reset leaves the new password in force and a second-factor reset clears enrolment and codes |
| `SecondFactorRaces.CompletionsThatOutlastAReset` | internal/auth/maintenance.go:15-116 | a proof or enrolment under way survives a reset exactly if its challenge belongs to another user |
| `SecondFactorRaces.LoginsThatOutlastAReset` | internal/auth/service.go:78-133 | a login begun before a reset and stored after it leaves an open challenge, the only one of the user |
| `SecondFactorRaces.CompletionsThatOutlastADisable` | internal/auth/postgres_store.go:322-456 | of the requests under way of a user being disabled exactly the recovery logins still commit |
| `SecondFactorRaces.RecoveryDuringADisable` | internal/auth/postgres_store.go:421-456 | such a recovery issues an unrevoked session that becomes usable when the user is enabled |
| `Sessions.SessionStore.AuthenticateSession` | internal/auth/service.go:231-270 | who is accepted, that a session idle for 30 minutes is revoked on sight, and that use is recorded once the last record is five minutes old |
| `Sessions.SuccessNeedsRecentActivity` | internal/auth/service.go:231-262 | a request succeeds only before login+12h and strictly within 30 minutes of login or an earlier success |
| `Sessions.SteadyUseStaysValid` | internal/auth/service.go:19-22 | an active user's requests at most 25 minutes apart all succeed until 12h, despite the five-minute recording cadence |
| `Sessions.LongerGapCanFail` | internal/auth/service.go:19-22 | for every longer gap there is a run in which the second request is refused |
| `Sessions.RefusalIsFinal` | internal/auth/service.go:236-246 | once an active user's request is refused no later one succeeds |
| `Sessions.RevocationIsFinal` | internal/auth/postgres_store.go:198-214 | a revoked session accepts nothing ever again |
| `SessionInterleavings.UndisturbedRequestIsAtomic` | internal/auth/service.go:231-270 | the reads, the revocation and the touch of one request, with no other in between, do what the request does as one step |
| `SessionSteps.ReadExactly` | internal/auth/service.go:231-246 | a new request sees exactly a session that is not revoked and not expired, of an active user, with its last use |
| `SessionSteps.CheckExactly` | internal/auth/service.go:243-262 | a request that saw the session idle for thirty minutes revokes it and is over, any other goes on exactly if the user is still active |
| `SessionSteps.AcceptExactly` | internal/auth/service.go:231-270 | use is recorded, at the reading of the request, exactly if the last one seen is five minutes old, and then the request is turned away if the session was revoked meanwhile or had expired |
| `SessionInterleavings.AcceptedRequestsAreRecent` | internal/auth/service.go:231-270 | over all interleavings of concurrent requests one is let through only before login+12h and within 30 minutes of the login or of a request let through earlier |
| `SessionInterleavings.RevocationStopsTheRest` | internal/auth/postgres_store.go:198-268 | a request under way outlasts a revocation exactly if it needs no touch, and no later one is let through |
| `SessionInterleavings.UseRunsBackIff` | internal/auth/postgres_store.go:234-250 | the recorded last use runs back exactly when a touch goes through whose reading is older than the record |
| `SessionOverlap.LateTouchEndsASessionInUse` | internal/auth/service.go:231-270 | a concrete run in which a delayed touch moves the record from twenty minutes back to six, and a request seventeen minutes after one that was let through finds the session idle |
| `SessionOverlap.OverlappingUseStaysValid` | internal/auth/service.go:19-22 | steady use by overlapping requests with a safe gap for their delay keeps the session alive until 12h, however their statements interleave: none finds it idle and none is turned away |
| `SessionOverlap.SafeGaps` | internal/auth/service.go:19-22 | the safe gaps are 25 minutes less the delay for a delay below five minutes, and under 30 minutes less twice the delay from there on |
| `SessionOverlap.SafeExactly` | internal/auth/service.go:231-270 | these are all: for every delay and every other positive gap some steady run finds the session idle |
| `HouseholdRoles.CreationKeepsNamesUnique` | internal/auth/rbac_store.go:81-104 | creation succeeds exactly for a valid household and a name not taken anywhere, keeps names unique and ids fresh, adds exactly the new member and makes its name taken |
| `HouseholdRoles.RefusedExactly` | internal/auth/rbac_store.go:106-284 | refused are ids that are not positive, then users who are no members of the household, then demoting or disabling its only active owner; any other change touches that member's role or active flag alone |
| `HouseholdRoles.RoleStore.RequireAnotherActiveOwner` | internal/auth/rbac_store.go:271-284 | true exactly if the household has more than one active owner |
| `HouseholdRoles.RoleStore.UpdateHouseholdMemberRole` | internal/auth/rbac_store.go:106-148 | which refusal applies, and otherwise the role change alone |
| `HouseholdRoles.RoleStore.DisableHouseholdMember` | internal/auth/rbac_store.go:150-202 | which refusal applies, and otherwise the member disabled and its sessions revoked |
| `HouseholdRoles.RoleStore.EnableHouseholdMember` | internal/auth/rbac_store.go:206-246 | which refusal applies, and otherwise the member enabled with sessions untouched |
| `LastOwner.HouseholdKeepsAnOwner` | internal/auth/rbac_store.go:106-284 | no interleaving of creates, role changes, disables and enables split into lock, read, count, update and commit takes a household from an active owner to none |
| `LastOwner.QuietHouseholdKeepsAnOwner` | internal/auth/rbac_store.go:106-284 | in particular from any members with no transaction under way |
| `LastOwner.CommitIsAtomic` | internal/auth/rbac_store.go:106-284 | each commit does exactly what its transaction would have done alone at that moment |
| `LastOwner.UndisturbedTransactionIsAtomic` | internal/auth/rbac_store.go:106-284 | with nobody else holding the household, lock, read, count, update and commit of a transaction make its change or its refusal and leave neither transaction nor lock behind |
| `LastOwner.UnlockedCountsLoseTheLastOwner` | internal/auth/rbac_store.go:248-253 | without the lock two owners who both counted two would leave the household without one |
| `MoneyTextProperties.ParseIsExact` | web/src/money.ts:39-50 | every plain decimal with at most the currency's digits is read as its exact minor units, whatever space surrounds it |
| `MoneyTextProperties.ParseAcceptsOnlyDecimals` | web/src/money.ts:39-50 | nothing else is accepted |
| `MoneyTextProperties.MoneyInputRoundTrip` | web/src/money.ts:39-63 | reading an edited stored amount gives the canonical decimal of the same minor units, for every digit string and currency |
| `MoneyTextProperties.GroupingIsRemovable` | web/src/money.ts:106-108 | removing the commas gives the digits back |
| `MoneyTextProperties.GroupsOfThree` | web/src/money.ts:106-108 | commas separate the digits in threes from the right |
| `MoneyTextProperties.FormatMoneyReadsBack` | web/src/money.ts:25-37 | what follows sign and mark reads back, without its commas, as the printed amount |
| `CurrencyText.DigitsOfCurrencies` | web/src/money.ts:3-13 | yen and won have no fraction digits, the dinars of Kuwait and Bahrain three and all others two, in any case of the letters and with any space around |
| `CurrencyText.PrintedMark` | web/src/money.ts:15-37 | a printed amount begins with the minus sign of a negative amount and then the mark of its currency, which is its code and a space if the table has none |
| `CurrencyText.SpacesAre` | web/src/money.ts:39-50 | which characters the trim of a text drops |
| `MoneyTextProperties.FormatPercentIsRounded` | web/src/money.ts:65-95 | a ratio times 100 is rounded half away from zero to the requested places, all of them printed, zero never negative; anything else is a dash |
| `MoneyTextProperties.FormatPercentReads` | web/src/money.ts:65-95 | the printed percentage of every signed decimal, with any space around: its value times 100 rounded to the places, and a minus sign exactly if it has one and does not round to zero |
| `MoneyTextProperties.OnlySignedDecimalsPrint` | web/src/money.ts:65-71 | whatever is not a signed decimal, or asks for less than 0 or more than 6 places, prints as a dash |
| `Decimals.RenderHasValue` | web/src/money.ts:39-63 | the canonical decimal of a number has that value |
| `Decimals.RenderHasNoLeadingZero` | web/src/money.ts:39-63 | and no superfluous leading zero |
| `FixedWindowLimiter.Limiter.Allow` | internal/mcpadapter/security.go:113-126 | the first call of an aligned minute starts its own count, a minute that starts at zero is never recognised, and a call is admitted exactly below the limit |
| `FixedWindowLimiter.AdmittedPerVisit` | internal/mcpadapter/security.go:113-126 | in whatever order calls are served, a minute admits exactly, visit by visit, its calls up to the limit |
| `FixedWindowLimiter.AtMostLimitPerVisit` | internal/mcpadapter/security.go:113-126 | so at most limit times the number of visits, and exactly that number for a limit of one |
| `FixedWindowLimiter.LimitHoldsIffOneVisit` | internal/mcpadapter/security.go:113-126 | a trace keeps every limit in a minute if and only if it visits the minute at most once |
| `FixedWindowLimiter.SixtySecondsPerVisit` | internal/mcpadapter/security.go:113-126 | in any half-open sixty seconds at most limit times the visits to the two minutes they reach into |
| `FixedWindowLimiter.AtMostLimitPerMinute` | internal/mcpadapter/security.go:113-126 | at most limit calls are admitted per aligned minute if clock readings are served in their order |
| `FixedWindowLimiter.AtMostTwiceLimitPerSixtySeconds` | internal/mcpadapter/security.go:113-126 | and then at most twice limit in any half-open sixty seconds |
| `FixedWindowLimiter.TwiceLimitIsReached` | internal/mcpadapter/security.go:113-126 | the factor two is reached for every limit |
| `FixedWindowLimiter.ZeroMinuteIsUnlimited` | internal/mcpadapter/security.go:117-120 | in the clock's first minute every call of every trace is admitted |
| `FixedWindowLimiter.StaleReadingsReopenTheWindow` | internal/mcpadapter/security.go:113-126 | n readings served late let n+1 times limit calls through in one minute |
| `LoginThrottle.NewConfig` | internal/server/login_throttle.go:26-42 | positive limits are kept and all others replaced by the defaults |
| `LoginThrottle.Throttle.Prune` | internal/server/login_throttle.go:97-103 | removes exactly the expired buckets |
| `LoginThrottle.Throttle.Allow` | internal/server/login_throttle.go:44-64 | after the expired buckets are gone admits exactly if for each key of the attempt its bucket is not full or, without one, the table has room |
| `LoginThrottle.KeysOfAnAttempt` | internal/server/login_throttle.go:105-116 | an attempt counts against its address, "unknown" if it has none, and against its user name if it has one |
| `LoginThrottle.Throttle.RecordFailure` | internal/server/login_throttle.go:66-84 | counts the failure for each key, as far as the table has room |
| `LoginThrottle.Throttle.RecordSuccess` | internal/server/login_throttle.go:86-95 | removes exactly the attempt's buckets |
| `LoginThrottle.FailureReachesBucketIff` | internal/server/login_throttle.go:66-84 | a failure is counted in the bucket of one of its keys exactly if that is live or the table has room for it after the address, and then counts on from it or opens it |
| `LoginAttempts.Login` | internal/server/auth.go:94-109 | one request alone checks, verifies and records with one clock reading |
| `LoginAttempts.AddressFailureHasRoom` | internal/server/login_throttle.go:44-84 | an admitted failure always reaches the bucket of its address, also when it fills the table |
| `LoginAttempts.UserFailureRecordedIff` | internal/server/login_throttle.go:66-84 | an admitted failure reaches the bucket of its user name exactly if the name's or the address's bucket is live or the table has two free entries |
| `LoginAttempts.UserFailureCanGoUnrecorded` | internal/server/login_throttle.go:72-77 | a concrete first failure that a table of one entry admits and does not record for the user name |
| `LoginAttempts.FailuresPerBucketWindow` | internal/server/login_throttle.go:44-103 | between successes an address or user name gets at most maxFailures failed attempts admitted in a window that starts without a live bucket, if each of them finds room |
| `LoginAttempts.FailuresPerAnyWindow` | internal/server/login_throttle.go:44-103 | and at most twice as many in any window length |
| `LoginAttempts.AddressFailuresPerBucketWindow` | internal/server/login_throttle.go:44-103 | for an address, whose failures always find room, the first bound holds of every run |
| `LoginAttempts.AddressFailuresPerAnyWindow` | internal/server/login_throttle.go:44-103 | and so does the second |
| `LoginAttempts.UserBoundCanFail` | internal/server/login_throttle.go:66-84 | a concrete run in which a user name without room gets two failures where one is the limit |
| `LoginAttempts.FullTableFailsClosed` | internal/server/login_throttle.go:50-57 | a full table refuses every address it holds no live bucket for |
| `LoginRequests.AttemptIsItsSteps` | internal/server/auth.go:94-109 | check and record of one request, with no other in between, do what the attempt does as one step |
| `LoginRequests.TableStaysBounded` | internal/server/login_throttle.go:66-84 | however requests overlap the table never holds more than maxEntries buckets |
| `LoginRequests.BucketsStayWithinTheOverlap` | internal/server/auth.go:94-109 | with at most k requests of an address or user name in flight together its bucket never counts more than maxFailures + k - 1 |
| `LoginRequests.FailuresInABucketsLife` | internal/server/login_throttle.go:44-103 | so at most maxFailures + k - 1 requests of the key fail in the life of one bucket |
| `LoginRequests.FailuresPerWindow` | internal/server/login_throttle.go:44-103 | and in a window that starts without a live bucket, between successes and if each failure finds room, in whatever order the clock readings are served |
| `LoginRequests.OneAtATime` | internal/server/login_throttle.go:44-103 | with one request of the key in flight at a time, whatever the others do, at most maxFailures |
| `LoginOverlap.OverlapBoundIsReached` | internal/server/auth.go:94-109 | for every limit, every k and each key of a request, address or user name, a run reaches maxFailures + k - 1 failures in one bucket, if the table has an entry for each key |
| `LoginOverlap.SingleEntryCountsNoName` | internal/server/login_throttle.go:66-84 | a table of one entry never opens a bucket for a user name |
| `LoginOverlap.UnrecordedFailureEscapesTheBound` | internal/server/login_throttle.go:66-84 | a concrete run in which requests of another address take the last entry between check and record, and an address without room gets a failure more than the bound |

## Left out

- Decimal arithmetic with 34 digits and its exponent limits: rates and products are exact reals; the relational proofs need
  only monotone rounding, and `Rounding.TwoStageRoundsMonotonically` covers a bounded first stage.
- Currencies inside simulated rows: validation makes them all equal, so rows carry plain minor units.
- The source's integer `int` for months and days is unbounded here; contract months, counts and instants do not wrap around.
- Names of debts and goals, and the goal checks on name, priority and date presence: taken as checked before the model starts.
- The account, liquid-pool, contractual-debt and hard-goal sums that feed the netting: plain folds that would add easy members.
- Savings rate, the decimal digits of a utilization, net worth, cashflow and spending summaries, portfolio and response mapping:
  plain folds and copies.
- Warning texts and quality strings, and the transaction issue list of the data-quality report: single-branch checks.
- Trimming and lower-casing of comments and user names: duplicate detection takes any normalising function, the throttle takes
  normalised names. `strings.TrimSpace` on job and period names is applied before the model starts.
- Saturation of time differences beyond 292 years.
- The library sort: the model sorts with a stable insertion sort, and where order matters the theorems hold for every sorted
  arrangement.
- Time zones with changing offsets: the schedule uses a fixed offset and civil calendar arithmetic.
- The text form of a report period: periods are month numbers.
- PostgreSQL itself, contexts and error wrapping: tables are maps, each statement or committed transaction is one step, and a
  database failure is a step that does nothing or loses its answer. Deleting households or users with their rows.
- A second process beside the first: one process claims, finishes and restarts; running two at once is not modelled.
- Encryption and hashing: passwords, tokens, secrets and codes are known by their hashes, which are distinct identifiers, the keyed
  hash of one-time codes is an arbitrary function, and random tokens are fresh by assumption.
- JobRunStore.RunStore.RunDue: is one undisturbed run without store errors, the job's work a boolean; `JobRuns` has every
  interleaving, failed statement and crash.
- Sessions.SessionStore.AuthenticateSession: is one step, as are the runs about it; `SessionInterleavings` splits it into the
  statements of the source, and `SessionOverlap` has steady use by overlapping requests.
- LoginAttempts.Login: is one step, as are the runs about it; `LoginRequests` splits it into check and record.
- LoginRequests.FailuresPerWindow: needs room for each failure, also for addresses, as
  `LoginOverlap.UnrecordedFailureEscapesTheBound` shows. The bound for any window length is stated for attempts one after the
  other only (`LoginAttempts.FailuresPerAnyWindow`).
- Store functions that no modelled flow calls, and the recovery-code text format.
- HTTP handlers, the tool protocol adapter, user interface, service worker, configuration, advisor and language-model streaming:
  plumbing or dependent on services outside the repository.
