/** What a one-time extra payment saves: the baseline against the scenario. */
module DebtComparison {
  import opened Results
  import opened Integers
  import opened Money
  import opened DebtContract
  import opened DebtSimulator
  import opened DebtAccounting
  import opened DebtExtraPayments
  import opened DebtRows

  datatype CompareError = InvalidRequest | SimulationFailed(error: DebtError)

  datatype Comparison = Comparison(
    appliedExtra: int,
    appliedMonth: int,
    baseline: Simulation,
    scenario: Simulation,
    monthsSaved: int,
    interestSaved: int,
    prepaymentFees: int,
    netSavings: int)

  function ExtraPaid(payments: seq<Payment>): int {
    if payments == [] then 0 else payments[0].extraPrincipal + ExtraPaid(payments[1..])
  }

  lemma RuleForContract(debt: Contract, extra: Money)
    requires Validate(debt, extra).None? && TermsOf(debt).Ok?
    ensures RowsBalance(RuleOf(TermsOf(debt).value)) && MonotoneMonths(RuleOf(TermsOf(debt).value))
  {
    RulesAreMonotone(debt, extra);
    SimulatedRowsBalance(TermsOf(debt).value);
    SimulatedMonthsAreMonotone(TermsOf(debt).value);
  }

  lemma LargerRun(debt: Contract, extra: Money, limit: int, fewer: int -> int, more: int -> int)
    requires Validate(debt, extra).None? && TermsOf(debt).Ok? && OffersAtMost(fewer, more)
    requires Run(RuleOf(TermsOf(debt).value), limit, 1, debt.balance.minor, fewer, 0, 0).Ok?
    ensures var rule, balance := RuleOf(TermsOf(debt).value), debt.balance.minor;
      NoWorseOrFee(balance, Run(rule, limit, 1, balance, fewer, 0, 0).value, balance, Run(rule, limit, 1, balance, more, 0, 0))
  {
    RuleForContract(debt, extra);
    ExtraNeverHurts(RuleOf(TermsOf(debt).value), limit, 1, debt.balance.minor, debt.balance.minor, fewer, more, 0, 0, 0, 0);
  }

  lemma LargerOutcome(debt: Contract, smaller: Money, smallerMonth: int, larger: Money, largerMonth: int)
    requires Validate(debt, smaller).None? && Validate(debt, larger).None?
    requires OffersAtMost(MonthExtra(smaller.minor, smallerMonth), MonthExtra(larger.minor, largerMonth))
    requires Outcome(debt, smaller, smallerMonth).Ok?
    ensures NoWorseOrFee(debt.balance.minor, Outcome(debt, smaller, smallerMonth).value, debt.balance.minor,
                         Outcome(debt, larger, largerMonth))
  {
    if debt.balance.minor != 0 {
      LargerRun(debt, smaller, TermsOf(debt).value.Limit(), MonthExtra(smaller.minor, smallerMonth), MonthExtra(larger.minor, largerMonth));
    }
  }

  /** At contract level: of two offers, one-time or recurring, the one that is pointwise at least the other is no
      worse, unless a prepayment fee leaves the 64-bit range. */
  lemma LargerExtraNeverHurts(debt: Contract, smaller: Money, smallerMonth: int, larger: Money, largerMonth: int)
    requires larger.currency == smaller.currency && larger.minor >= 0
    requires OffersAtMost(MonthExtra(smaller.minor, smallerMonth), MonthExtra(larger.minor, largerMonth))
    requires Outcome(debt, smaller, smallerMonth).Ok?
    ensures var r := Outcome(debt, larger, largerMonth);
      if r.Err? then FeeOverflow(r.error)
      else NoWorse(debt.balance.minor, Outcome(debt, smaller, smallerMonth).value, debt.balance.minor, r.value)
  {
    LargerOutcome(debt, smaller, smallerMonth, larger, largerMonth);
  }

  /** At contract level: a baseline that succeeds without extras is never beaten by it, one-time or recurring,
      unless a prepayment fee leaves the 64-bit range. */
  lemma ExtraNeverHurtsContract(debt: Contract, requested: Money, oneTimeMonth: int)
    requires requested.currency == debt.balance.currency && requested.minor >= 0
    requires Outcome(debt, Zero(debt.balance.currency), 0).Ok?
    ensures var baseline := Outcome(debt, Zero(debt.balance.currency), 0).value;
      var r := Outcome(debt, requested, oneTimeMonth);
      if r.Err? then FeeOverflow(r.error)
      else NoWorse(debt.balance.minor, baseline, debt.balance.minor, r.value) && baseline.totalFees == 0
  {
    var none := Zero(debt.balance.currency);
    assert Validate(debt, none).None? && Validate(debt, requested).None?;
    if debt.balance.minor != 0 {
      var t := TermsOf(debt).value;
      LargerExtraNeverHurts(debt, none, 0, requested, oneTimeMonth);
      NoExtraNoFee(t, 1, debt.balance.minor, MonthExtra(0, 0), 0, 0);
    }
  }

  lemma {:induction false} NoExtraNoFee(t: Terms, month: int, balance: int, extras: int -> int, interestSoFar: int, feesSoFar: int)
    requires forall m: int :: extras(m) == 0
    requires Run(RuleOf(t), t.Limit(), month, balance, extras, interestSoFar, feesSoFar).Ok?
    ensures Run(RuleOf(t), t.Limit(), month, balance, extras, interestSoFar, feesSoFar).value.totalFees == feesSoFar
    decreases t.Limit() + 1 - month
  {
    if month <= t.Limit() && balance > 0 {
      var p := RuleOf(t)(month, balance, extras(month)).value;
      NoExtraNoFee(t, month + 1, p.closing, extras, interestSoFar + p.interest, feesSoFar + p.fee);
    }
  }

  /** With a one-time extra only the row of that month can carry extra principal. */
  lemma {:induction false} OnlyOneMonthPaysExtra(
      t: Terms, month: int, balance: int, extra: int, oneTimeMonth: int, payments: seq<Payment>)
    requires oneTimeMonth > 0 && extra >= 0
    requires Chained(RuleOf(t), t.Limit(), month, balance, MonthExtra(extra, oneTimeMonth), payments)
    ensures forall k | 0 <= k < |payments| && payments[k].extraPrincipal > 0 ::
              month + k == oneTimeMonth == payments[k].month && payments[k].extraPrincipal <= extra
    ensures 0 <= ExtraPaid(payments)
    ensures month > oneTimeMonth ==> ExtraPaid(payments) == 0
    ensures forall k | 0 <= k < |payments| && payments[k].extraPrincipal > 0 :: ExtraPaid(payments) == payments[k].extraPrincipal
    ensures ExtraPaid(payments) > 0 ==> exists k | 0 <= k < |payments| :: payments[k].extraPrincipal > 0
    decreases |payments|
  {
    if payments != [] {
      OnlyOneMonthPaysExtra(t, month + 1, payments[0].closing, extra, oneTimeMonth, payments[1..]);
      assert forall k | 1 <= k < |payments| :: payments[k] == payments[1..][k - 1];
      assert payments[0] == SimulateMonth(t, month, balance, MonthExtra(extra, oneTimeMonth)(month)).value;
      if ExtraPaid(payments[1..]) > 0 {
        var j :| 0 <= j < |payments[1..]| && payments[1..][j].extraPrincipal > 0;
        assert payments[j + 1].extraPrincipal > 0;
      }
    }
  }

  /** The first row that carries extra principal, zeros if none does. */
  method FirstExtra(payments: seq<Payment>) returns (extra: int, month: int)
    ensures (forall k | 0 <= k < |payments| :: payments[k].extraPrincipal <= 0) ==> extra == month == 0
    ensures (exists k | 0 <= k < |payments| :: payments[k].extraPrincipal > 0) ==>
      exists k | 0 <= k < |payments| ::
        && extra == payments[k].extraPrincipal > 0 && month == payments[k].month
        && forall j | 0 <= j < k :: payments[j].extraPrincipal <= 0
  {
    extra, month := 0, 0;
    for i := 0 to |payments|
      invariant extra == month == 0
      invariant forall k | 0 <= k < i :: payments[k].extraPrincipal <= 0
    {
      if payments[i].extraPrincipal > 0 {
        return payments[i].extraPrincipal, payments[i].month;
      }
    }
  }

  /** The two simulations are the only steps that can fail: the differences of their totals are in range, so
      the error returns behind the three subtractions are unreachable. */
  method CompareOneTimeExtra(debt: Contract, amountMinor: Int64) returns (r: Result<Comparison, CompareError>)
    ensures amountMinor <= 0 ==> r == Err(InvalidRequest)
    ensures amountMinor > 0 ==>
      var baseline := Outcome(debt, Zero(debt.balance.currency), 0);
      var scenario := Outcome(debt, Money(amountMinor, debt.balance.currency), debt.restrictedMonths + 1);
      if baseline.Err? then r == Err(SimulationFailed(baseline.error))
      else if scenario.Err? then r == Err(SimulationFailed(scenario.error)) && FeeOverflow(scenario.error)
      else
        && r.Ok? && r.value.baseline == baseline.value && r.value.scenario == scenario.value
        && r.value.monthsSaved == |baseline.value.payments| - |scenario.value.payments| >= 0
        && r.value.interestSaved == baseline.value.totalInterest - scenario.value.totalInterest >= 0
        && r.value.prepaymentFees == scenario.value.totalFees >= 0
        && r.value.netSavings == r.value.interestSaved - r.value.prepaymentFees
        && r.value.appliedExtra == ExtraPaid(scenario.value.payments) <= amountMinor
        && r.value.appliedMonth == (if r.value.appliedExtra > 0 then debt.restrictedMonths + 1 else 0)
        && (debt.restrictedMonths < |scenario.value.payments| ==>
              var row := scenario.value.payments[debt.restrictedMonths];
              r.value.appliedExtra == Min(amountMinor, row.opening - row.scheduledPrincipal))
        && (debt.restrictedMonths >= |scenario.value.payments| ==> r.value.appliedExtra == 0)
  {
    if amountMinor <= 0 {
      return Err(InvalidRequest);
    }
    var currency := debt.balance.currency;
    var requested := Money(amountMinor, currency);
    var baseline := SimulateDebt(debt, Zero(currency), 0);
    if baseline.Err? {
      return Err(SimulationFailed(baseline.error));
    }
    ExtraNeverHurtsContract(debt, requested, debt.restrictedMonths + 1);
    var scenario := SimulateDebt(debt, requested, debt.restrictedMonths + 1);
    if scenario.Err? {
      return Err(SimulationFailed(scenario.error));
    }
    SimulationKeepsTheBooks(debt, Zero(currency), 0);
    SimulationKeepsTheBooks(debt, requested, debt.restrictedMonths + 1);
    var b, s := baseline.value, scenario.value;
    var interestSaved := Sub(Money(b.totalInterest, currency), Money(s.totalInterest, currency));
    if interestSaved.Err? {
      assert false;
    }
    var feeDelta := Sub(Money(s.totalFees, currency), Money(b.totalFees, currency));
    if feeDelta.Err? {
      assert false;
    }
    var netSavings := Sub(interestSaved.value, feeDelta.value);
    if netSavings.Err? {
      assert false;
    }
    OneTimeRows(debt, requested);
    var appliedExtra, appliedMonth := FirstExtra(s.payments);
    r := Ok(Comparison(appliedExtra, appliedMonth, b, s, |b.payments| - |s.payments|,
                       interestSaved.value.minor, s.totalFees, netSavings.value.minor));
  }

  /** Only the one-time month pays anything extra, and no more than was requested. */
  predicate OneTimeOnly(payments: seq<Payment>, restrictedMonths: int, requested: int) {
    && 0 <= restrictedMonths && 0 <= ExtraPaid(payments)
    && (forall k | 0 <= k < |payments| && payments[k].extraPrincipal > 0 ::
          payments[k].month == restrictedMonths + 1 && ExtraPaid(payments) == payments[k].extraPrincipal <= requested)
    && (ExtraPaid(payments) > 0 ==> exists k | 0 <= k < |payments| :: payments[k].extraPrincipal > 0)
  }

  lemma OneTimeRun(debt: Contract, requested: Money)
    requires Outcome(debt, requested, debt.restrictedMonths + 1).Ok?
    ensures OneTimeOnly(Outcome(debt, requested, debt.restrictedMonths + 1).value.payments, debt.restrictedMonths, requested.minor)
  {
    if debt.balance.minor != 0 {
      var t := TermsOf(debt).value;
      var extras := MonthExtra(requested.minor, debt.restrictedMonths + 1);
      RuleForContract(debt, requested);
      RunKeepsTheBooks(RuleOf(t), t.Limit(), 1, debt.balance.minor, extras, 0, 0);
      OnlyOneMonthPaysExtra(t, 1, debt.balance.minor, requested.minor, debt.restrictedMonths + 1,
                            Run(RuleOf(t), t.Limit(), 1, debt.balance.minor, extras, 0, 0).value.payments);
    }
  }

  /** What the scheduled principal of a month leaves of its opening balance takes in as much as it can. */
  predicate Applied(payments: seq<Payment>, at: int, requested: int) {
    if 0 <= at < |payments| then
      ExtraPaid(payments) == Min(requested, payments[at].opening - payments[at].scheduledPrincipal)
    else ExtraPaid(payments) == 0
  }

  lemma OneTimeApplied(payments: seq<Payment>, at: int, requested: int)
    requires OneTimeOnly(payments, at, requested)
    requires forall k | 0 <= k < |payments| :: payments[k].month == k + 1
    requires at < |payments| ==>
               payments[at].extraPrincipal == Min(requested, payments[at].opening - payments[at].scheduledPrincipal) >= 0
    ensures Applied(payments, at, requested)
  {
    if ExtraPaid(payments) > 0 {
      var k :| 0 <= k < |payments| && payments[k].extraPrincipal > 0;
      assert payments[k].month == at + 1 && k == at;
    }
  }

  lemma OneTimeRow(debt: Contract, requested: Money, k: nat)
    requires Outcome(debt, requested, debt.restrictedMonths + 1).Ok?
    requires k < |Outcome(debt, requested, debt.restrictedMonths + 1).value.payments|
    ensures var row := Outcome(debt, requested, debt.restrictedMonths + 1).value.payments[k];
      && row.month == k + 1
      && (k == debt.restrictedMonths ==> row.extraPrincipal == Min(requested.minor, row.opening - row.scheduledPrincipal) >= 0)
  {
    RowsAreExact(debt, requested, debt.restrictedMonths + 1, k);
  }

  lemma OneTimeRows(debt: Contract, requested: Money)
    requires Outcome(debt, requested, debt.restrictedMonths + 1).Ok?
    ensures var payments := Outcome(debt, requested, debt.restrictedMonths + 1).value.payments;
      OneTimeOnly(payments, debt.restrictedMonths, requested.minor) && Applied(payments, debt.restrictedMonths, requested.minor)
  {
    var payments := Outcome(debt, requested, debt.restrictedMonths + 1).value.payments;
    OneTimeRun(debt, requested);
    forall k: nat | k < |payments|
      ensures payments[k].month == k + 1
      ensures k == debt.restrictedMonths ==>
                payments[k].extraPrincipal == Min(requested.minor, payments[k].opening - payments[k].scheduledPrincipal) >= 0
    {
      OneTimeRow(debt, requested, k);
    }
    OneTimeApplied(payments, debt.restrictedMonths, requested.minor);
  }
}
