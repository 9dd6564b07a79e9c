/** Revolving and custom repayment: when the payment amortizes, and how long payoff can take. */
module DebtPayoffBound {
  import opened Results
  import opened Integers
  import opened Money
  import opened Rounding
  import opened DebtContract
  import opened DebtSimulator
  import opened DebtAccounting

  predicate PaysConfiguredAmount(t: Terms) {
    t.repayment.Revolving? || t.repayment.Custom?
  }

  /** Months needed to clear `balance` at `step` a month: the quotient rounded up. */
  function CeilDiv(balance: nat, step: int): nat
    requires step > 0
  {
    (balance + step - 1) / step
  }

  lemma CeilDivCovers(balance: nat, step: int)
    requires step > 0
    ensures CeilDiv(balance, step) * step >= balance
  {
    var q := CeilDiv(balance, step);
    assert balance + step - 1 == step * q + (balance + step - 1) % step;
  }

  /** A month refuses to amortize exactly when the configured payment does not exceed the interest due. */
  lemma RefusesExactlyWhenInterestEatsPayment(t: Terms, month: int, opening: int, extra: int)
    requires t.Valid() && PaysConfiguredAmount(t) && opening > 0
    requires InInt64(opening + t.interest(opening))
    ensures SimulateMonth(t, month, opening, extra) == Err(NonAmortizing) <==> t.payment <= t.interest(opening)
  {
    assert t.interest(0) <= t.interest(opening);
  }

  /** The smaller the balance, the larger the scheduled principal, up to the balance itself. */
  lemma PrincipalOfMonth(t: Terms, month: int, opening: int, extra: int)
    requires t.Valid() && PaysConfiguredAmount(t) && opening > 0
    requires SimulateMonth(t, month, opening, extra).Ok?
    ensures SimulateMonth(t, month, opening, extra).value.scheduledPrincipal == Min(t.payment - t.interest(opening), opening)
  {
  }

  /** Every month that opens with at most `bound` clears it or takes at least `step` off it, or overflows. */
  ghost predicate Amortizes(rule: MonthRule, bound: int, step: int) {
    forall month: int, opening: int, extra: int {:trigger rule(month, opening, extra)} ::
      0 < opening <= bound ==> TakesOff(opening, step, rule(month, opening, extra))
  }

  predicate TakesOff(opening: int, step: int, r: Result<Payment, DebtError>) {
    match r
    case Err(e) => e.AmountOverflow?
    case Ok(p) => 0 <= p.closing && (p.closing == 0 || p.closing <= opening - step)
  }

  lemma ConfiguredPaymentAmortizes(t: Terms, bound: int)
    requires t.Valid() && PaysConfiguredAmount(t) && t.interest(bound) < t.payment
    ensures Amortizes(RuleOf(t), bound, t.payment - t.interest(bound))
  {
    forall month: int, opening: int, extra: int | 0 < opening <= bound
      ensures TakesOff(opening, t.payment - t.interest(bound), RuleOf(t)(month, opening, extra))
    {
      assert t.interest(0) <= t.interest(opening) <= t.interest(bound);
    }
  }

  /** Such a rule pays off within any number of months that covers the balance at that pace, whatever the
      extras: only the month limit, or an amount out of range, can stop the run. */
  lemma {:induction false} PayoffWithin(rule: MonthRule, limit: int, month: int, balance: int, bound: int, step: int, months: nat,
                                        extras: int -> int, interestSoFar: int, feesSoFar: int)
    requires step > 0 && Amortizes(rule, bound, step)
    requires 0 <= balance <= bound && balance <= months * step
    requires month <= limit + 1
    ensures match Run(rule, limit, month, balance, extras, interestSoFar, feesSoFar)
      case Ok(s) => |s.payments| <= months
      case Err(e) => e.AmountOverflow? || (e == NonAmortizing && month - 1 + months > limit)
    decreases limit + 1 - month
  {
    if balance > 0 && months > 0 && month <= limit {
      var extra := extras(month);
      var row := rule(month, balance, extra);
      assert TakesOff(balance, step, row);
      if row.Ok? {
        var p := row.value;
        assert (months - 1) * step == months * step - step;
        assert (months - 1) * step >= 0;
        PayoffWithin(rule, limit, month + 1, p.closing, bound, step, months - 1, extras,
                     interestSoFar + p.interest, feesSoFar + p.fee);
      }
    }
  }

  lemma RefusedInTheFirstMonth(t: Terms, balance: int, extras: int -> int)
    requires t.Valid() && PaysConfiguredAmount(t) && balance > 0
    requires InInt64(balance + t.interest(balance)) && t.payment <= t.interest(balance)
    ensures Run(RuleOf(t), t.Limit(), 1, balance, extras, 0, 0) == Err(NonAmortizing)
  {
    var extra := extras(1);
    RefusesExactlyWhenInterestEatsPayment(t, 1, balance, extra);
    assert RuleOf(t)(1, balance, extra) == Err(NonAmortizing);
  }

  /** Success within `months`, or the limit of 1200 months is too short for them, or an amount is out of range. */
  predicate PaidWithin(r: Result<Simulation, DebtError>, months: nat) {
    match r
    case Ok(s) => |s.payments| <= months
    case Err(e) => e.AmountOverflow? || (e == NonAmortizing && months > MAX_SIMULATION_MONTHS)
  }

  lemma PaidWithinQuotient(t: Terms, balance: int, extras: int -> int, step: int, r: Result<Simulation, DebtError>)
    requires t.Valid() && PaysConfiguredAmount(t) && balance > 0
    requires step == t.payment - t.interest(balance) > 0
    requires r == Run(RuleOf(t), t.Limit(), 1, balance, extras, 0, 0)
    ensures PaidWithin(r, CeilDiv(balance, step))
  {
    var months := CeilDiv(balance, step);
    CeilDivCovers(balance, step);
    ConfiguredPaymentAmortizes(t, balance);
    PayoffWithin(RuleOf(t), t.Limit(), 1, balance, balance, step, months, extras, 0, 0);
  }

  function ConfiguredPayment(debt: Contract): int {
    if debt.repayment.Revolving? then debt.minimumPayment.minor else debt.scheduledPayment.minor
  }

  lemma ConfiguredContractTerms(debt: Contract, extra: Money, oneTimeMonth: int)
    requires Validate(debt, extra).None? && (debt.repayment.Revolving? || debt.repayment.Custom?)
    requires debt.balance.minor > 0
    ensures TermsOf(debt).Ok? && TermsOf(debt).value.Valid() && PaysConfiguredAmount(TermsOf(debt).value)
    ensures TermsOf(debt).value.payment == ConfiguredPayment(debt)
    ensures TermsOf(debt).value.interest(debt.balance.minor) == FirstInterest(debt)
    ensures Outcome(debt, extra, oneTimeMonth)
            == Run(RuleOf(TermsOf(debt).value), MAX_SIMULATION_MONTHS, 1, debt.balance.minor, MonthExtra(extra.minor, oneTimeMonth), 0, 0)
  {
    RulesAreMonotone(debt, extra);
  }

  function FirstInterest(debt: Contract): int
    requires debt.apr.Some?
  {
    MultiplyAndRound(debt.balance.minor, MonthlyRate(debt.apr.value))
  }

  /** A revolving or custom contract, with a recurring or a one-time extra, is refused for good in the first month
      if the configured payment does not exceed the interest due then ... */
  lemma ConfiguredContractRefused(debt: Contract, extra: Money, oneTimeMonth: int)
    requires Validate(debt, extra).None? && (debt.repayment.Revolving? || debt.repayment.Custom?)
    requires debt.balance.minor > 0 && InInt64(debt.balance.minor + FirstInterest(debt))
    requires ConfiguredPayment(debt) <= FirstInterest(debt)
    ensures Outcome(debt, extra, oneTimeMonth) == Err(NonAmortizing)
  {
    ConfiguredContractTerms(debt, extra, oneTimeMonth);
    RefusedInTheFirstMonth(TermsOf(debt).value, debt.balance.minor, MonthExtra(extra.minor, oneTimeMonth));
  }

  /** ... and otherwise paid off within the quotient of the balance and the first scheduled principal, rounded up. */
  lemma ConfiguredContractPaidWithin(debt: Contract, extra: Money, oneTimeMonth: int)
    requires Validate(debt, extra).None? && (debt.repayment.Revolving? || debt.repayment.Custom?)
    requires debt.balance.minor > 0
    requires ConfiguredPayment(debt) > FirstInterest(debt)
    ensures PaidWithin(Outcome(debt, extra, oneTimeMonth), CeilDiv(debt.balance.minor, ConfiguredPayment(debt) - FirstInterest(debt)))
  {
    ConfiguredContractTerms(debt, extra, oneTimeMonth);
    var t, step, r := TermsOf(debt).value, ConfiguredPayment(debt) - FirstInterest(debt), Outcome(debt, extra, oneTimeMonth);
    assert step == t.payment - t.interest(debt.balance.minor);
    assert r == Run(RuleOf(t), t.Limit(), 1, debt.balance.minor, MonthExtra(extra.minor, oneTimeMonth), 0, 0);
    PaidWithinQuotient(t, debt.balance.minor, MonthExtra(extra.minor, oneTimeMonth), step, r);
  }

  // ---------- nothing overflows ----------

  /** A month that takes its step off, with interest and fee within their caps. */
  predicate FittingMonth(opening: int, step: int, first: int, cap: int, r: Result<Payment, DebtError>) {
    r.Ok? && 0 <= r.value.interest <= first && 0 <= r.value.fee <= cap && TakesOff(opening, step, r)
  }

  ghost predicate FittingMonths(rule: MonthRule, bound: int, offered: int, step: int, first: int, cap: int) {
    forall month: int, opening: int, extra: int {:trigger rule(month, opening, extra)} ::
      0 < opening <= bound && extra <= offered ==> FittingMonth(opening, step, first, cap, rule(month, opening, extra))
  }

  lemma ConfiguredMonthFits(t: Terms, month: int, opening: int, extra: int, bound: int, offered: int)
    requires t.Valid() && PaysConfiguredAmount(t) && t.interest(bound) < t.payment
    requires 0 < opening <= bound && extra <= offered && offered >= 0
    requires bound + t.interest(bound) <= MAX_INT64 && t.fee(Min(offered, bound)) <= MAX_INT64
    ensures FittingMonth(opening, t.payment - t.interest(bound), t.interest(bound), t.fee(Min(offered, bound)),
                         SimulateMonth(t, month, opening, extra))
  {
    var interest := t.interest(opening);
    assert t.interest(0) <= interest <= t.interest(bound);
    var amounts := ScheduledAmounts(t, month, opening, interest);
    assert amounts.Ok? && 0 < amounts.value.0 <= opening;
    var remaining := opening - amounts.value.0;
    if month > t.restrictedMonths && extra > 0 && remaining > 0 {
      assert t.fee(0) <= t.fee(Min(extra, remaining)) <= t.fee(Min(offered, bound));
    } else {
      assert t.fee(0) <= t.fee(Min(offered, bound));
    }
  }

  lemma {:induction false} FittingRunPaysOff(rule: MonthRule, limit: int, month: int, balance: int, bound: int, offered: int, step: int,
                                             months: nat, first: int, cap: int, extras: int -> int, interestSoFar: int, feesSoFar: int)
    requires step > 0 && FittingMonths(rule, bound, offered, step, first, cap) && forall m: int :: extras(m) <= offered
    requires 0 <= balance <= bound && balance <= months * step && month - 1 + months <= limit
    requires first >= 0 && cap >= 0 && interestSoFar >= 0 && feesSoFar >= 0
    requires interestSoFar + months * first <= MAX_INT64 && feesSoFar + months * cap <= MAX_INT64
    ensures var r := Run(rule, limit, month, balance, extras, interestSoFar, feesSoFar); r.Ok? && |r.value.payments| <= months
    decreases months
  {
    if balance > 0 {
      var extra := extras(month);
      var row := rule(month, balance, extra);
      assert FittingMonth(balance, step, first, cap, row);
      assert months > 0;
      OneMonthLess(months, step);
      OneMonthLess(months, first);
      OneMonthLess(months, cap);
      FittingRunPaysOff(rule, limit, month + 1, row.value.closing, bound, offered, step, months - 1, first, cap, extras,
                        interestSoFar + row.value.interest, feesSoFar + row.value.fee);
    }
  }

  lemma OneMonthLess(months: nat, amount: int)
    requires months > 0 && amount >= 0
    ensures months * amount == amount + (months - 1) * amount && (months - 1) * amount >= 0
  {
  }

  /** A revolving or custom contract that amortizes cannot fail at all, and pays off within the quotient, if that is within
      the limit of 1200 months, balance plus first-month interest fits, and so do that many times the first-month interest
      and the largest fee the offer can cost. */
  lemma ConfiguredContractsFit(debt: Contract, extra: Money, oneTimeMonth: int)
    requires Validate(debt, extra).None? && (debt.repayment.Revolving? || debt.repayment.Custom?)
    requires debt.balance.minor > 0 && ConfiguredPayment(debt) > FirstInterest(debt)
    requires debt.balance.minor + FirstInterest(debt) <= MAX_INT64
    requires var months := CeilDiv(debt.balance.minor, ConfiguredPayment(debt) - FirstInterest(debt));
      && months <= MAX_SIMULATION_MONTHS
      && months * FirstInterest(debt) <= MAX_INT64 && months * FeeCap(debt, extra) <= MAX_INT64
    ensures var months, r := CeilDiv(debt.balance.minor, ConfiguredPayment(debt) - FirstInterest(debt)), Outcome(debt, extra, oneTimeMonth);
      r.Ok? && |r.value.payments| <= months
  {
    ConfiguredContractTerms(debt, extra, oneTimeMonth);
    assert TermsOf(debt).value.fee(Min(extra.minor, debt.balance.minor)) == FeeCap(debt, extra);
    FittingConfiguredTerms(TermsOf(debt).value, debt.balance.minor, extra.minor, MonthExtra(extra.minor, oneTimeMonth));
  }

  lemma FittingConfiguredTerms(t: Terms, balance: int, offered: int, extras: int -> int)
    requires t.Valid() && PaysConfiguredAmount(t) && balance > 0 && t.interest(balance) < t.payment
    requires offered >= 0 && forall m: int :: extras(m) <= offered
    requires balance + t.interest(balance) <= MAX_INT64
    requires var months := CeilDiv(balance, t.payment - t.interest(balance));
      && months <= MAX_SIMULATION_MONTHS
      && months * t.interest(balance) <= MAX_INT64 && months * t.fee(Min(offered, balance)) <= MAX_INT64
    ensures var months := CeilDiv(balance, t.payment - t.interest(balance));
      var r := Run(RuleOf(t), MAX_SIMULATION_MONTHS, 1, balance, extras, 0, 0);
      r.Ok? && |r.value.payments| <= months
  {
    var first, cap := t.interest(balance), t.fee(Min(offered, balance));
    var step := t.payment - first;
    var months := CeilDiv(balance, step);
    CeilDivCovers(balance, step);
    assert t.interest(0) <= first && t.fee(0) <= cap;
    AtLeastOneMonth(months, balance, step);
    OneMonthLess(months, cap);
    forall month: int, opening: int, extra: int | 0 < opening <= balance && extra <= offered
      ensures FittingMonth(opening, step, first, cap, RuleOf(t)(month, opening, extra))
    {
      ConfiguredMonthFits(t, month, opening, extra, balance, offered);
    }
    FittingRunPaysOff(RuleOf(t), MAX_SIMULATION_MONTHS, 1, balance, balance, offered, step, months, first, cap, extras, 0, 0);
  }

  lemma AtLeastOneMonth(months: nat, balance: int, step: int)
    requires balance > 0 && step > 0 && months * step >= balance
    ensures months > 0
  {
  }

  /** Without extras the scheduled principal never decreases from one payment to the next, the final one aside. */
  lemma PrincipalNeverDecreases(t: Terms, balance: int, extras: int -> int, payments: seq<Payment>, k: nat)
    requires t.Valid() && PaysConfiguredAmount(t) && balance >= 0
    requires forall m: int :: extras(m) == 0
    requires Chained(RuleOf(t), t.Limit(), 1, balance, extras, payments)
    requires k + 2 < |payments|
    ensures payments[k].scheduledPrincipal <= payments[k + 1].scheduledPrincipal
  {
    ChainedRow(RuleOf(t), t.Limit(), 1, balance, extras, payments, k);
    ChainedRow(RuleOf(t), t.Limit(), 1, balance, extras, payments, k + 1);
    ChainedRow(RuleOf(t), t.Limit(), 1, balance, extras, payments, k + 2);
    var opening, next := OpeningOf(balance, payments, k), payments[k].closing;
    PrincipalOfMonth(t, 1 + k, opening, 0);
    PrincipalOfMonth(t, 1 + (k + 1), next, 0);
    assert t.interest(0) <= t.interest(next) <= t.interest(opening);
  }

  /** The same for a contract simulated without extras. */
  lemma ConfiguredPrincipalNeverDecreases(debt: Contract, k: nat)
    requires debt.repayment.Revolving? || debt.repayment.Custom?
    requires debt.balance.minor > 0 && Outcome(debt, Zero(debt.balance.currency), 0).Ok?
    requires k + 2 < |Outcome(debt, Zero(debt.balance.currency), 0).value.payments|
    ensures var payments := Outcome(debt, Zero(debt.balance.currency), 0).value.payments;
            payments[k].scheduledPrincipal <= payments[k + 1].scheduledPrincipal
  {
    var none, t := Zero(debt.balance.currency), TermsOf(debt).value;
    ConfiguredContractTerms(debt, none, 0);
    SimulatedRowsBalance(t);
    RunKeepsTheBooks(RuleOf(t), t.Limit(), 1, debt.balance.minor, MonthExtra(0, 0), 0, 0);
    PrincipalNeverDecreases(t, debt.balance.minor, MonthExtra(0, 0), Outcome(debt, none, 0).value.payments, k);
  }
}
