/** The netting of overlapping commitments behind "safe to spend": nothing is reserved twice. */
module Snapshot {
  import opened Results
  import opened Money
  import opened Integers
  import opened Ledger
  import opened Residuals
  import opened SafeToSpend
  import opened Sorting

  // ---------- budget status ----------

  datatype BudgetKind = Essential | Flexible | Debt | Saving | Investment | Goal

  datatype BudgetLine = BudgetLine(categoryRef: string, semanticGroup: string, planned: Money, kind: BudgetKind)

  datatype EventKind = OtherEvent | ExpenseEvent | RefundEvent

  datatype Event = Event(kind: EventKind, amount: Money, categoryId: string)

  datatype Reserves = Reserves(essential: Money, plannedEssential: Money, debt: Money, goal: Money, savingInvestment: Money)

  datatype BudgetError = NegativePlanned | Arithmetic(error: MoneyError)

  predicate Spends(e: Event) {
    e.kind.ExpenseEvent? || e.kind.RefundEvent?
  }

  /** What was actually spent in a category: expenses count up, refunds carry negative amounts. */
  function Spent(events: seq<Event>, category: string): int {
    if events == [] then 0
    else
      var last := events[|events| - 1];
      Spent(events[..|events| - 1], category) + (if Spends(last) && last.categoryId == category then last.amount.minor else 0)
  }

  /** Actual spending of a line; a line without a category has none that could be looked up. */
  function Actual(events: seq<Event>, line: BudgetLine): int {
    if line.categoryRef == "" then 0 else Spent(events, line.categoryRef)
  }

  /** The reserve of some kinds of lines: the sum of what each line has planned and not yet spent. */
  function ReserveSum(lines: seq<BudgetLine>, kinds: set<BudgetKind>, events: seq<Event>): int {
    if lines == [] then 0
    else
      var line := lines[|lines| - 1];
      ReserveSum(lines[..|lines| - 1], kinds, events)
      + (if line.kind in kinds then Positive(line.planned.minor - Actual(events, line)) else 0)
  }

  function PlannedSum(lines: seq<BudgetLine>): int {
    if lines == [] then 0
    else
      var line := lines[|lines| - 1];
      PlannedSum(lines[..|lines| - 1]) + (if line.kind.Essential? then line.planned.minor else 0)
  }

  /** A line adds to the reserve of its kind what it plans beyond the spending of its category, which a line without a
      category has none of; essential lines also add what they plan. */
  lemma ReservedOneMore(lines: seq<BudgetLine>, kinds: set<BudgetKind>, events: seq<Event>, k: nat)
    requires k < |lines|
    ensures ReserveSum(lines[..0], kinds, events) == 0 == PlannedSum(lines[..0])
    ensures var line := lines[k];
      var unspent := line.planned.minor - (if line.categoryRef == "" then 0 else Spent(events, line.categoryRef));
      && ReserveSum(lines[..k + 1], kinds, events)
         == ReserveSum(lines[..k], kinds, events) + (if line.kind in kinds then Max(unspent, 0) else 0)
      && PlannedSum(lines[..k + 1]) == PlannedSum(lines[..k]) + (if line.kind == Essential then line.planned.minor else 0)
  {
    assert lines[..k + 1][..k] == lines[..k];
  }

  /** Event `k` is in the plan's currency and the running total of its category stays in range. */
  ghost predicate EventFits(currency: string, events: seq<Event>, k: nat)
    requires k < |events|
  {
    Spends(events[k]) ==>
      events[k].amount.currency == currency && InInt64(Spent(events[..k + 1], events[k].categoryId))
  }

  /** The table holds a category's total, or nothing was spent in it. */
  predicate TotalOf(actual: map<string, Money>, currency: string, events: seq<Event>, c: string) {
    if c in actual then actual[c].minor == Spent(events, c) && actual[c].currency == currency else Spent(events, c) == 0
  }

  /** An event counts towards a category exactly if it is an expense or a refund of that category. */
  lemma SpentOneMore(events: seq<Event>, k: nat, c: string)
    requires k < |events|
    ensures Spent(events[..0], c) == 0
    ensures var e := events[k];
      Spent(events[..k + 1], c)
      == Spent(events[..k], c) + (if (e.kind == ExpenseEvent || e.kind == RefundEvent) && e.categoryId == c then e.amount.minor else 0)
  {
    assert events[..k + 1][..k] == events[..k];
  }

  method ActualByCategory(currency: string, events: seq<Event>) returns (r: Result<map<string, Money>, MoneyError>)
    ensures r.Ok? <==> forall k | 0 <= k < |events| :: EventFits(currency, events, k)
    ensures r.Ok? ==> forall c :: TotalOf(r.value, currency, events, c)
  {
    var actual: map<string, Money> := map[];
    for k := 0 to |events|
      invariant forall c :: TotalOf(actual, currency, events[..k], c)
      invariant forall j | 0 <= j < k :: EventFits(currency, events, j)
    {
      var e := events[k];
      var next := actual;
      if Spends(e) {
        SpentOneMore(events, k, e.categoryId);
        assert TotalOf(actual, currency, events[..k], e.categoryId);
        var current := Add(if e.categoryId in actual then actual[e.categoryId] else Zero(currency), e.amount);
        if current.Err? {
          assert !EventFits(currency, events, k);
          return Err(current.error);
        }
        next := actual[e.categoryId := current.value];
      }
      var soFar := events[..k + 1];
      forall c
        ensures TotalOf(next, currency, soFar, c)
      {
        assert TotalOf(actual, currency, events[..k], c);
        SpentOneMore(events, k, c);
      }
      actual := next;
    }
    assert events[..|events|] == events;
    r := Ok(actual);
  }

  ghost predicate ReservesOf(r: Reserves, currency: string, lines: seq<BudgetLine>, events: seq<Event>) {
    && r.essential.minor == ReserveSum(lines, {Essential}, events)
    && r.plannedEssential.minor == PlannedSum(lines)
    && r.debt.minor == ReserveSum(lines, {Debt}, events)
    && r.goal.minor == ReserveSum(lines, {Goal}, events)
    && r.savingInvestment.minor == ReserveSum(lines, {Saving, BudgetKind.Investment}, events)
    && r.essential.currency == r.plannedEssential.currency == r.debt.currency == r.goal.currency
       == r.savingInvestment.currency == currency
  }

  /** One budget line added to the reserve of its kind. */
  function AddLine(r: Reserves, line: BudgetLine, actual: Money): Result<Reserves, BudgetError> {
    if line.planned.minor < 0 then Err(NegativePlanned)
    else match Sub(line.planned, actual)
      case Err(e) => Err(Arithmetic(e))
      case Ok(left) =>
        var remaining := left.(minor := Positive(left.minor));
        match line.kind
        case Essential =>
          (match (Add(r.essential, remaining), Add(r.plannedEssential, line.planned))
           case (Ok(a), Ok(b)) => Ok(r.(essential := a, plannedEssential := b))
           case (Err(e), _) => Err(Arithmetic(e))
           case (_, Err(e)) => Err(Arithmetic(e)))
        case Debt => (match Add(r.debt, remaining) case Ok(a) => Ok(r.(debt := a)) case Err(e) => Err(Arithmetic(e)))
        case Goal => (match Add(r.goal, remaining) case Ok(a) => Ok(r.(goal := a)) case Err(e) => Err(Arithmetic(e)))
        case Saving | Investment =>
          (match Add(r.savingInvestment, remaining) case Ok(a) => Ok(r.(savingInvestment := a)) case Err(e) => Err(Arithmetic(e)))
        case Flexible => Ok(r)
  }

  /** Line `k` is well formed and every reserve stays in range once it is added. */
  ghost predicate LineFits(currency: string, lines: seq<BudgetLine>, events: seq<Event>, k: nat)
    requires k < |lines|
  {
    var line, soFar := lines[k], lines[..k + 1];
    && line.planned.minor >= 0 && line.planned.currency == currency
    && InInt64(line.planned.minor - Actual(events, line))
    && InInt64(ReserveSum(soFar, {Essential}, events)) && InInt64(PlannedSum(soFar))
    && InInt64(ReserveSum(soFar, {Debt}, events)) && InInt64(ReserveSum(soFar, {Goal}, events))
    && InInt64(ReserveSum(soFar, {Saving, BudgetKind.Investment}, events))
  }

  lemma AddLineExtends(r: Reserves, currency: string, lines: seq<BudgetLine>, events: seq<Event>, k: nat, actual: Money)
    requires k < |lines| && ReservesOf(r, currency, lines[..k], events)
    requires actual == Money(actual.minor, currency) && actual.minor == Actual(events, lines[k])
    ensures AddLine(r, lines[k], actual).Ok? <==> LineFits(currency, lines, events, k)
    ensures AddLine(r, lines[k], actual).Ok? ==> ReservesOf(AddLine(r, lines[k], actual).value, currency, lines[..k + 1], events)
  {
    assert lines[..k + 1][..k] == lines[..k];
  }

  /** What is reported for one budget line; what remains may be negative, and a line that plans nothing has no utilization. */
  datatype LineStatus = LineStatus(planned: int, actual: int, remaining: int, utilization: Option<real>)

  function Utilization(actual: int, planned: int): (ratio: Option<real>)
    ensures ratio.None? <==> planned == 0
    ensures ratio.Some? ==> ratio.value * planned as real == actual as real
  {
    if planned == 0 then None else Some(actual as real / planned as real)
  }

  ghost predicate StatusOf(status: LineStatus, line: BudgetLine, events: seq<Event>) {
    && status.planned == line.planned.minor && status.actual == Actual(events, line)
    && status.remaining == status.planned - status.actual
    && status.utilization == Utilization(status.actual, status.planned)
  }

  ghost predicate StatusesOf(statuses: seq<LineStatus>, lines: seq<BudgetLine>, events: seq<Event>) {
    |statuses| == |lines| && forall k | 0 <= k < |lines| :: StatusOf(statuses[k], lines[k], events)
  }

  function StatusFor(line: BudgetLine, spent: int): LineStatus {
    LineStatus(line.planned.minor, spent, line.planned.minor - spent, Utilization(spent, line.planned.minor))
  }

  lemma StatusOneMore(statuses: seq<LineStatus>, lines: seq<BudgetLine>, events: seq<Event>, k: nat, spent: int)
    requires k < |lines| && StatusesOf(statuses, lines[..k], events) && spent == Actual(events, lines[k])
    ensures StatusesOf(statuses + [StatusFor(lines[k], spent)], lines[..k + 1], events)
  {
    assert forall j | 0 <= j < k :: lines[..k + 1][j] == lines[..k][j];
  }

  /** The line names a semantic group only, so its actual spending is not known. */
  predicate Unmapped(line: BudgetLine) {
    line.categoryRef == "" && line.semanticGroup != ""
  }

  /** The groups warned about, each once. */
  ghost predicate WarnsOf(warnings: seq<string>, lines: seq<BudgetLine>) {
    && Distinct(warnings)
    && (forall k | 0 <= k < |lines| :: Unmapped(lines[k]) ==> lines[k].semanticGroup in warnings)
    && (forall group | group in warnings :: Warned(lines, group))
  }

  ghost predicate Warned(lines: seq<BudgetLine>, group: string) {
    exists k | 0 <= k < |lines| :: Unmapped(lines[k]) && lines[k].semanticGroup == group
  }

  lemma WarnOneMore(warnings: seq<string>, lines: seq<BudgetLine>, k: nat)
    requires k < |lines| && WarnsOf(warnings, lines[..k])
    ensures var group := lines[k].semanticGroup;
      WarnsOf(if Unmapped(lines[k]) && group !in warnings then warnings + [group] else warnings, lines[..k + 1])
  {
    var group, soFar := lines[k].semanticGroup, lines[..k + 1];
    var after := if Unmapped(lines[k]) && group !in warnings then warnings + [group] else warnings;
    forall g | g in after
      ensures Warned(soFar, g)
    {
      if g in warnings {
        var j :| 0 <= j < k && Unmapped(lines[..k][j]) && lines[..k][j].semanticGroup == g;
        assert soFar[j] == lines[..k][j];
      } else {
        assert soFar[k] == lines[k];
      }
    }
    forall j | 0 <= j < k + 1 && Unmapped(soFar[j])
      ensures soFar[j].semanticGroup in after
    {
      if j < k {
        assert soFar[j] == lines[..k][j];
      }
    }
  }

  /** Each line is reported with what was spent on it, and each reserve is the sum over its budget lines of the positive
      part of planned minus actual. */
  method CalculateBudgetStatus(currency: string, lines: seq<BudgetLine>, events: seq<Event>)
    returns (r: Result<(seq<LineStatus>, Reserves, seq<string>), BudgetError>)
    ensures r.Ok? <==> (forall k | 0 <= k < |events| :: EventFits(currency, events, k))
                       && (forall k | 0 <= k < |lines| :: LineFits(currency, lines, events, k))
    ensures r.Ok? ==> && StatusesOf(r.value.0, lines, events) && ReservesOf(r.value.1, currency, lines, events)
                      && WarnsOf(r.value.2, lines)
  {
    var actual := ActualByCategory(currency, events);
    if actual.Err? {
      return Err(Arithmetic(actual.error));
    }
    var zero := Zero(currency);
    var reserves := Reserves(zero, zero, zero, zero, zero);
    var statuses: seq<LineStatus> := [];
    var warnings: seq<string> := [];
    for k := 0 to |lines|
      invariant ReservesOf(reserves, currency, lines[..k], events)
      invariant StatusesOf(statuses, lines[..k], events)
      invariant WarnsOf(warnings, lines[..k])
      invariant forall j | 0 <= j < k :: LineFits(currency, lines, events, j)
    {
      var line := lines[k];
      WarnOneMore(warnings, lines, k);
      var spent := zero;
      if line.categoryRef != "" {
        if line.categoryRef in actual.value {
          spent := actual.value[line.categoryRef];
        }
      } else if line.semanticGroup != "" && line.semanticGroup !in warnings {
        warnings := warnings + [line.semanticGroup];
      }
      assert TotalOf(actual.value, currency, events, line.categoryRef);
      var step := AddLine(reserves, line, spent);
      AddLineExtends(reserves, currency, lines, events, k, spent);
      if step.Err? {
        return Err(step.error);
      }
      StatusOneMore(statuses, lines, events, k, spent.minor);
      reserves, statuses := step.value, statuses + [StatusFor(line, spent.minor)];
    }
    assert lines[..|lines|] == lines;
    r := Ok((statuses, reserves, warnings));
  }

  // ---------- debt payments already made ----------

  function Magnitude(value: Money): Result<Money, MoneyError> {
    if value.minor == MIN_INT64 then Err(Overflow)
    else Ok(value.(minor := if value.minor < 0 then -value.minor else value.minor))
  }

  function Abs(x: int): int {
    if x < 0 then -x else x
  }

  /** A transfer into one of the household's debt accounts, in its currency. */
  predicate PaysDebt(tx: Transaction, debtAccounts: set<string>, currency: string) {
    tx.kind.Transfer? && tx.destinationAccountId in debtAccounts && tx.Arriving().currency == currency
  }

  function PaidSum(txs: seq<Transaction>, debtAccounts: set<string>, currency: string): int {
    if txs == [] then 0
    else
      var tx := txs[|txs| - 1];
      PaidSum(txs[..|txs| - 1], debtAccounts, currency)
      + (if PaysDebt(tx, debtAccounts, currency) then Abs(tx.Arriving().minor) else 0)
  }

  ghost predicate PaymentFits(txs: seq<Transaction>, debtAccounts: set<string>, currency: string, k: nat)
    requires k < |txs|
  {
    PaysDebt(txs[k], debtAccounts, currency) ==>
      txs[k].Arriving().minor != MIN_INT64 && InInt64(PaidSum(txs[..k + 1], debtAccounts, currency))
  }

  /** Some transfer into a debt account is in another currency. */
  predicate SomeForeign(txs: seq<Transaction>, debtAccounts: set<string>, currency: string) {
    exists k | 0 <= k < |txs| ::
      txs[k].kind.Transfer? && txs[k].destinationAccountId in debtAccounts && txs[k].Arriving().currency != currency
  }

  /** A transaction counts exactly if it is a transfer into a debt account in the currency, with what arrives there. */
  lemma PaidOneMore(txs: seq<Transaction>, debtAccounts: set<string>, currency: string, k: nat)
    requires k < |txs|
    ensures PaidSum(txs[..0], debtAccounts, currency) == 0
    ensures var arriving := if txs[k].destinationAmount.Some? then txs[k].destinationAmount.value else txs[k].sourceAmount;
      var minor: int := arriving.minor;
      PaidSum(txs[..k + 1], debtAccounts, currency)
      == PaidSum(txs[..k], debtAccounts, currency)
         + (if txs[k].kind == Transfer && txs[k].destinationAccountId in debtAccounts && arriving.currency == currency
            then Max(minor, -minor) else 0)
    ensures SomeForeign(txs[..k + 1], debtAccounts, currency)
            <==> SomeForeign(txs[..k], debtAccounts, currency) || SomeForeign([txs[k]], debtAccounts, currency)
  {
    assert txs[..k + 1][..k] == txs[..k];
    assert forall j | 0 <= j < k :: txs[..k + 1][j] == txs[..k][j];
    assert txs[..k + 1][k] == [txs[k]][0];
  }

  method PaidDebtCommitments(txs: seq<Transaction>, debtAccounts: set<string>, currency: string)
    returns (r: Result<(Money, bool), MoneyError>)
    ensures r.Ok? <==> forall k | 0 <= k < |txs| :: PaymentFits(txs, debtAccounts, currency, k)
    ensures r.Ok? ==>
      && r.value.0.minor == PaidSum(txs, debtAccounts, currency) >= 0 && r.value.0.currency == currency
      && (r.value.1 <==> SomeForeign(txs, debtAccounts, currency))
  {
    var paid, partial := Zero(currency), false;
    for k := 0 to |txs|
      invariant paid.minor == PaidSum(txs[..k], debtAccounts, currency) >= 0 && paid.currency == currency
      invariant partial <==> SomeForeign(txs[..k], debtAccounts, currency)
      invariant forall j | 0 <= j < k :: PaymentFits(txs, debtAccounts, currency, j)
    {
      var tx := txs[k];
      PaidOneMore(txs, debtAccounts, currency, k);
      if !tx.kind.Transfer? || tx.destinationAccountId !in debtAccounts {
        continue;
      }
      if tx.Arriving().currency != currency {
        assert [tx][0] == tx;
        partial := true;
        continue;
      }
      var amount := Magnitude(tx.Arriving());
      if amount.Err? {
        assert !PaymentFits(txs, debtAccounts, currency, k);
        return Err(amount.error);
      }
      var step := Add(paid, amount.value);
      if step.Err? {
        assert !PaymentFits(txs, debtAccounts, currency, k);
        return Err(step.error);
      }
      paid := step.value;
    }
    assert txs[..|txs|] == txs;
    r := Ok((paid, partial));
  }

  // ---------- netting ----------

  /** The commitments of one period before netting: budget reserves, contractual debt and hard goals, what was
      paid on debts so far, the liquid pool and the liquidity floor. */
  datatype Commitments = Commitments(reserves: Reserves, scheduledDebt: Money, paidDebt: Money, hardGoals: Money, liquid: Money, floor: Money) {
    predicate OneCurrency() {
      reserves.essential.currency == reserves.debt.currency == reserves.goal.currency == reserves.savingInvestment.currency
      == scheduledDebt.currency == paidDebt.currency == hardGoals.currency == floor.currency == liquid.currency
    }

    predicate NonNegative() {
      && reserves.essential.minor >= 0 && reserves.debt.minor >= 0 && reserves.goal.minor >= 0 && reserves.savingInvestment.minor >= 0
      && scheduledDebt.minor >= 0 && paidDebt.minor >= 0 && hardGoals.minor >= 0 && floor.minor >= 0
    }
  }

  /** Safe to spend stated from the outside: each obligation is deducted once, at its larger claim. */
  function SafeAmount(c: Commitments): int {
    c.liquid.minor - c.floor.minor - c.reserves.essential.minor - c.reserves.savingInvestment.minor
    - Max(c.reserves.goal.minor, c.hardGoals.minor)
    - Max(0, Max(c.reserves.debt.minor, c.scheduledDebt.minor) - c.paidDebt.minor)
  }

  /** What is still reserved for debts once payments are taken off the budget's reserve. */
  function DebtReserve(c: Commitments): int {
    Positive(c.reserves.debt.minor - c.paidDebt.minor)
  }

  /** The mandatory expenses ahead, the only sum that netting builds. */
  function Upcoming(c: Commitments): int {
    DebtReserve(c) + c.reserves.goal.minor + c.reserves.savingInvestment.minor
  }

  predicate NetCurrencies(c: Commitments) {
    && c.reserves.debt.currency == c.paidDebt.currency == c.scheduledDebt.currency == c.reserves.goal.currency
       == c.reserves.savingInvestment.currency
    && c.hardGoals.currency == c.reserves.goal.currency
  }

  /** Netting fails exactly on a currency that differs or on mandatory expenses that leave 64 bits. */
  method NetCommitments(c: Commitments) returns (r: Result<SafeInput, MoneyError>)
    ensures r.Ok? ==>
      && r.value.liquid == c.liquid && !r.value.debtAlreadyReserved
      && r.value.essentialReserve == c.reserves.essential && r.value.emergencyGap == c.floor
      && r.value.hardGoals.minor == Positive(c.hardGoals.minor - c.reserves.goal.minor)
      && r.value.hardGoals.currency == c.hardGoals.currency
      && r.value.debtCommitments.minor == Positive(Positive(c.scheduledDebt.minor - c.paidDebt.minor) - DebtReserve(c))
      && r.value.debtCommitments.currency == c.scheduledDebt.currency
      && r.value.upcomingMandatory.minor == Upcoming(c) && r.value.upcomingMandatory.currency == c.reserves.debt.currency
    ensures c.NonNegative() ==> (r.Ok? <==> NetCurrencies(c) && Upcoming(c) <= MAX_INT64)
  {
    var debtReserve := ResidualCommitment(c.reserves.debt, c.paidDebt);
    if debtReserve.Err? { return Err(debtReserve.error); }
    var scheduled := ResidualCommitment(c.scheduledDebt, c.paidDebt);
    if scheduled.Err? { return Err(scheduled.error); }
    var debt := ResidualCommitment(scheduled.value, debtReserve.value);
    if debt.Err? { return Err(debt.error); }
    var goals := ResidualCommitment(c.hardGoals, c.reserves.goal);
    if goals.Err? { return Err(goals.error); }
    var upcoming := Add(debtReserve.value, c.reserves.goal);
    if upcoming.Err? { return Err(upcoming.error); }
    upcoming := Add(upcoming.value, c.reserves.savingInvestment);
    if upcoming.Err? { return Err(upcoming.error); }
    r := Ok(SafeInput(c.liquid, upcoming.value, debt.value, false, c.reserves.essential, c.floor, goals.value));
  }

  /** No double reservation: the netted deductions add up to every obligation once. */
  lemma NettingCountsOnce(c: Commitments)
    requires c.NonNegative()
    ensures var debtReserve := Positive(c.reserves.debt.minor - c.paidDebt.minor);
      && debtReserve + Positive(Positive(c.scheduledDebt.minor - c.paidDebt.minor) - debtReserve)
         == Max(0, Max(c.reserves.debt.minor, c.scheduledDebt.minor) - c.paidDebt.minor)
      && c.reserves.goal.minor + Positive(c.hardGoals.minor - c.reserves.goal.minor) == Max(c.reserves.goal.minor, c.hardGoals.minor)
  {
  }

  /** With nothing negative to deduct, every running balance fits exactly if the last one does. */
  lemma DeductionsFit(liquid: Money, deductions: seq<Money>)
    requires forall d | d in deductions :: d.minor >= 0
    ensures AllStepsFit(liquid, deductions) <==> liquid.minor - SumMinor(deductions) >= MIN_INT64
  {
    assert deductions[..|deductions|] == deductions;
    PartialSums(deductions, |deductions|);
    if AllStepsFit(liquid, deductions) {
      assert InInt64(liquid.minor - SumMinor(deductions[..|deductions|]));
    }
    if liquid.minor - SumMinor(deductions) >= MIN_INT64 {
      forall k | 0 <= k <= |deductions|
        ensures InInt64(liquid.minor - SumMinor(deductions[..k]))
      {
        PartialSums(deductions, k);
      }
    }
  }

  lemma {:induction false} PartialSums(amounts: seq<Money>, k: nat)
    requires k <= |amounts| && forall d | d in amounts :: d.minor >= 0
    ensures 0 <= SumMinor(amounts[..k]) <= SumMinor(amounts)
    decreases |amounts|
  {
    if k < |amounts| {
      PartialSums(amounts[..|amounts| - 1], k);
      assert amounts[..|amounts| - 1][..k] == amounts[..k];
    } else {
      assert amounts[..k] == amounts;
      if k > 0 {
        PartialSums(amounts[..k - 1], k - 1);
        assert amounts[..k - 1][..k - 1] == amounts[..k - 1];
      }
    }
  }

  /** Safe to spend, netted and deducted as the source does, is the formula that reserves nothing twice. It fails
      exactly on a currency that differs, or on mandatory expenses or a result that leave 64 bits. */
  method SafeFromCommitments(c: Commitments) returns (r: Result<SafeResult, MoneyError>)
    requires c.NonNegative()
    ensures r.Ok? <==> c.OneCurrency() && Upcoming(c) <= MAX_INT64 && SafeAmount(c) >= MIN_INT64
    ensures r.Ok? ==> r.value.amount.minor == SafeAmount(c) && r.value.amount.currency == c.liquid.currency
                      && (r.value.isDeficit <==> SafeAmount(c) < 0)
  {
    var input := NetCommitments(c);
    if input.Err? {
      return Err(input.error);
    }
    NettingCountsOnce(c);
    var i := input.value;
    SumOfFive(i.upcomingMandatory, i.debtCommitments, i.essentialReserve, i.emergencyGap, i.hardGoals);
    DeductionsFit(i.liquid, i.Deductions());
    r := CalculateSafeToSpend(i);
  }

  // ---------- from budget lines, events and transfers ----------

  lemma {:induction false} ReservesAreNotNegative(lines: seq<BudgetLine>, kinds: set<BudgetKind>, events: seq<Event>)
    ensures ReserveSum(lines, kinds, events) >= 0
  {
    if lines != [] {
      ReservesAreNotNegative(lines[..|lines| - 1], kinds, events);
    }
  }

  lemma {:induction false} PaidIsNotNegative(txs: seq<Transaction>, debtAccounts: set<string>, currency: string)
    ensures PaidSum(txs, debtAccounts, currency) >= 0
  {
    if txs != [] {
      PaidIsNotNegative(txs[..|txs| - 1], debtAccounts, currency);
    }
  }

  /** One period: the plan's lines in the plan's currency, what happened, and the obligations that come from outside the
      plan, with payments counted in the household's currency. */
  datatype Period = Period(
    planCurrency: string,
    householdCurrency: string,
    lines: seq<BudgetLine>,
    events: seq<Event>,
    transfers: seq<Transaction>,
    debtAccounts: set<string>,
    scheduledDebt: Money,
    hardGoals: Money,
    liquid: Money,
    floor: Money)
  {
    function Reserve(kinds: set<BudgetKind>): int {
      ReserveSum(lines, kinds, events)
    }

    function Paid(): int {
      PaidSum(transfers, debtAccounts, householdCurrency)
    }

    /** Safe to spend from first data: every planned amount counts only as far as it is not yet spent, and every
        obligation counts once, at its larger claim. */
    function SafeToSpend(): int {
      liquid.minor - floor.minor - Reserve({Essential}) - Reserve({Saving, BudgetKind.Investment})
      - Max(Reserve({Goal}), hardGoals.minor) - Max(0, Max(Reserve({Debt}), scheduledDebt.minor) - Paid())
    }

    function MandatoryAhead(): int {
      Positive(Reserve({Debt}) - Paid()) + Reserve({Goal}) + Reserve({Saving, BudgetKind.Investment})
    }

    ghost predicate DataFits() {
      && (forall k | 0 <= k < |events| :: EventFits(planCurrency, events, k))
      && (forall k | 0 <= k < |lines| :: LineFits(planCurrency, lines, events, k))
      && (forall k | 0 <= k < |transfers| :: PaymentFits(transfers, debtAccounts, householdCurrency, k))
    }

    predicate InCurrency() {
      scheduledDebt.currency == hardGoals.currency == liquid.currency == floor.currency == planCurrency == householdCurrency
    }
  }

  /** The snapshot's path from budget lines, events and transfers to the amount that is safe to spend. */
  method SafeFromPlan(p: Period) returns (r: Result<SafeResult, BudgetError>)
    requires p.scheduledDebt.minor >= 0 && p.hardGoals.minor >= 0 && p.floor.minor >= 0
    ensures r.Ok? <==> p.DataFits() && p.InCurrency() && p.MandatoryAhead() <= MAX_INT64 && p.SafeToSpend() >= MIN_INT64
    ensures r.Ok? ==> r.value.amount.minor == p.SafeToSpend() && r.value.amount.currency == p.householdCurrency
                      && (r.value.isDeficit <==> p.SafeToSpend() < 0)
  {
    var status := CalculateBudgetStatus(p.planCurrency, p.lines, p.events);
    if status.Err? {
      return Err(status.error);
    }
    var paid := PaidDebtCommitments(p.transfers, p.debtAccounts, p.householdCurrency);
    if paid.Err? {
      return Err(Arithmetic(paid.error));
    }
    var c := Commitments(status.value.1, p.scheduledDebt, paid.value.0, p.hardGoals, p.liquid, p.floor);
    PlanIsNotNegative(p, c);
    var safe := SafeFromCommitments(c);
    if safe.Err? {
      return Err(Arithmetic(safe.error));
    }
    r := Ok(safe.value);
  }

  lemma PlanIsNotNegative(p: Period, c: Commitments)
    requires p.scheduledDebt.minor >= 0 && p.hardGoals.minor >= 0 && p.floor.minor >= 0
    requires ReservesOf(c.reserves, p.planCurrency, p.lines, p.events) && c.paidDebt.currency == p.householdCurrency
    requires c.paidDebt.minor == p.Paid() && c.scheduledDebt == p.scheduledDebt && c.hardGoals == p.hardGoals
    requires c.liquid == p.liquid && c.floor == p.floor
    ensures c.NonNegative() && (c.OneCurrency() <==> p.InCurrency())
    ensures SafeAmount(c) == p.SafeToSpend() && Upcoming(c) == p.MandatoryAhead()
  {
    ReservesAreNotNegative(p.lines, {Essential}, p.events);
    ReservesAreNotNegative(p.lines, {Debt}, p.events);
    ReservesAreNotNegative(p.lines, {Goal}, p.events);
    ReservesAreNotNegative(p.lines, {Saving, BudgetKind.Investment}, p.events);
    PaidIsNotNegative(p.transfers, p.debtAccounts, p.householdCurrency);
  }

  function PayDebt(c: Commitments, amount: int): Commitments
    requires 0 <= amount && InInt64(c.paidDebt.minor + amount) && InInt64(c.liquid.minor - amount)
  {
    c.(paidDebt := c.paidDebt.(minor := c.paidDebt.minor + amount), liquid := c.liquid.(minor := c.liquid.minor - amount))
  }

  /** Paying a committed debt out of the liquid pool leaves safe-to-spend as it was, and does so exactly as long as
      the payment stays within what is still owed; every unit beyond that is one unit less to spend. */
  lemma PayingWhatIsOwedIsNeutral(c: Commitments, amount: int)
    requires c.NonNegative() && 0 <= amount
    requires InInt64(c.paidDebt.minor + amount) && InInt64(c.liquid.minor - amount)
    ensures var owed := Max(0, Max(c.reserves.debt.minor, c.scheduledDebt.minor) - c.paidDebt.minor);
      && SafeAmount(PayDebt(c, amount)) == SafeAmount(c) - Max(0, amount - owed)
      && (SafeAmount(PayDebt(c, amount)) == SafeAmount(c) <==> amount <= owed)
  {
  }
}
