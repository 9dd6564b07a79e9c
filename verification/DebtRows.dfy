/** What every row of a simulation is, field by field, in terms of the contract and the offer. */
module DebtRows {
  import opened Results
  import opened Integers
  import opened Money
  import opened Rounding
  import opened DebtContract
  import opened DebtSimulator
  import opened DebtAccounting

  /** What the repayment rule fixes for all months: the level payment, the equal share, or the configured payment. */
  function FixedAmount(debt: Contract): int
    requires Complete(debt)
  {
    match debt.repayment
    case Annuity => HalfUp(ExactAnnuity(debt.balance.minor, debt.term, debt.apr.value / 12.0))
    case EqualPrincipal => HalfUp(debt.balance.minor as real / debt.term as real)
    case Revolving => debt.minimumPayment.minor
    case _ => debt.scheduledPayment.minor
  }

  /** How a month's row splits its opening balance: the scheduled principal of the rule, then all of the offer that the
      restriction and the remaining balance allow. */
  predicate RowSplits(repayment: RepaymentType, fixed: int, term: int, restrictedMonths: int, offer: int, month: int, opening: int, p: Payment) {
    && p.month == month && p.opening == opening > 0
    && p.scheduledPrincipal == (match repayment
         case Annuity => if month == term then opening else Min(fixed - p.interest, opening)
         case EqualPrincipal => if month == term then opening else Min(fixed, opening)
         case _ => Min(fixed - p.interest, opening))
    && (repayment.Revolving? || repayment.Custom? ==> p.scheduledPrincipal > 0)
    && p.scheduledPayment == p.scheduledPrincipal + p.interest
    && p.extraPrincipal == (if month > restrictedMonths then Min(offer, opening - p.scheduledPrincipal) else 0)
    && p.closing == opening - p.scheduledPrincipal - p.extraPrincipal
  }

  /** Interest is one twelfth of a year's on the opening balance, and the fee is on the extra principal alone, both half-up. */
  ghost predicate RowRounds(apr: real, feeRate: Option<real>, p: Payment) {
    && p.interest == HalfUp(p.opening as real * (apr / 12.0))
    && p.fee == (if p.extraPrincipal > 0 && feeRate.Some? then HalfUp(p.extraPrincipal as real * feeRate.value) else 0)
  }

  function FixedBy(t: Terms): int {
    match t.repayment case Annuity => t.fixedScheduled case EqualPrincipal => t.equalPrincipal case _ => t.payment
  }

  predicate RoundedBy(t: Terms, p: Payment) {
    p.interest == t.interest(p.opening) && p.fee == if p.extraPrincipal > 0 then t.fee(p.extraPrincipal) else 0
  }

  lemma MonthSplits(t: Terms, month: int, opening: int, offer: int)
    requires t.Valid() && opening > 0 && offer >= 0 && SimulateMonth(t, month, opening, offer).Ok?
    ensures var p := SimulateMonth(t, month, opening, offer).value;
      && RowSplits(t.repayment, FixedBy(t), t.term, t.restrictedMonths, offer, month, opening, p)
      && RoundedBy(t, p)
  {
    assert t.interest(0) <= t.interest(opening);
  }

  lemma TermsAreTheContract(debt: Contract, extra: Money, t: Terms)
    requires Validate(debt, extra).None? && TermsOf(debt) == Ok(t) && Complete(debt)
    ensures t.repayment == debt.repayment && t.term == debt.term && t.restrictedMonths == debt.restrictedMonths
    ensures FixedBy(t) == FixedAmount(debt)
  {
  }

  lemma TermsRules(debt: Contract, extra: Money, t: Terms)
    requires Validate(debt, extra).None? && TermsOf(debt) == Ok(t)
    ensures t.interest == InterestRule(debt) && t.fee == FeeRule(debt)
  {
  }

  lemma InterestRounds(debt: Contract, amount: int)
    requires debt.apr.Some?
    ensures InterestRule(debt)(amount) == HalfUp(amount as real * (debt.apr.value / 12.0))
  {
    assert InterestRule(debt)(amount) == MultiplyAndRound(amount, MonthlyRate(debt.apr.value));
  }

  lemma FeeRounds(debt: Contract, amount: int)
    ensures FeeRule(debt)(amount) == if debt.feeRate.Some? then HalfUp(amount as real * debt.feeRate.value) else 0
  {
    if debt.feeRate.Some? && debt.feeRate.value == 0.0 {
      assert amount as real * debt.feeRate.value == 0.0;
    }
  }

  lemma TermsRound(debt: Contract, extra: Money, t: Terms, amount: int)
    requires Validate(debt, extra).None? && TermsOf(debt) == Ok(t)
    ensures t.interest(amount) == HalfUp(amount as real * (debt.apr.value / 12.0))
    ensures t.fee(amount) == if debt.feeRate.Some? then HalfUp(amount as real * debt.feeRate.value) else 0
  {
    TermsRules(debt, extra, t);
    InterestRounds(debt, amount);
    FeeRounds(debt, amount);
  }

  lemma RoundsLikeTerms(debt: Contract, extra: Money, t: Terms, p: Payment)
    requires Validate(debt, extra).None? && TermsOf(debt) == Ok(t) && RoundedBy(t, p)
    ensures RowRounds(debt.apr.value, debt.feeRate, p)
  {
    TermsRound(debt, extra, t, p.opening);
    TermsRound(debt, extra, t, p.extraPrincipal);
  }

  lemma SplitsLikeTerms(debt: Contract, extra: Money, t: Terms, offer: int, month: int, opening: int, p: Payment)
    requires Validate(debt, extra).None? && TermsOf(debt) == Ok(t) && Complete(debt)
    requires RowSplits(t.repayment, FixedBy(t), t.term, t.restrictedMonths, offer, month, opening, p)
    ensures RowSplits(debt.repayment, FixedAmount(debt), debt.term, debt.restrictedMonths, offer, month, opening, p)
  {
    TermsAreTheContract(debt, extra, t);
  }

  lemma RowInRun(rule: MonthRule, limit: int, balance: int, extras: int -> int, k: nat)
    requires RowsBalance(rule) && balance >= 0 && Run(rule, limit, 1, balance, extras, 0, 0).Ok?
    requires k < |Run(rule, limit, 1, balance, extras, 0, 0).value.payments|
    ensures var rows := Run(rule, limit, 1, balance, extras, 0, 0).value.payments;
      && OpeningOf(balance, rows, k) > 0 && k + 1 <= limit
      && rule(k + 1, OpeningOf(balance, rows, k), extras(k + 1)) == Ok(rows[k])
      && (k + 1 == |rows| <==> rows[k].closing == 0)
  {
    var rows := Run(rule, limit, 1, balance, extras, 0, 0).value.payments;
    RunKeepsTheBooks(rule, limit, 1, balance, extras, 0, 0);
    ChainedRow(rule, limit, 1, balance, extras, rows, k);
    EndsAtZero(rule, limit, balance, extras, rows, k);
  }

  /** A row of a run under fixed terms. */
  lemma RowByTerms(t: Terms, limit: int, balance: int, extras: int -> int, k: nat)
    requires t.Valid() && balance >= 0 && forall m: int :: extras(m) >= 0
    requires Run(RuleOf(t), limit, 1, balance, extras, 0, 0).Ok? && k < |Run(RuleOf(t), limit, 1, balance, extras, 0, 0).value.payments|
    ensures var rows := Run(RuleOf(t), limit, 1, balance, extras, 0, 0).value.payments;
      && RowSplits(t.repayment, FixedBy(t), t.term, t.restrictedMonths, extras(k + 1), k + 1, OpeningOf(balance, rows, k), rows[k])
      && RoundedBy(t, rows[k])
      && k + 1 <= limit && (k + 1 == |rows| <==> rows[k].closing == 0)
  {
    var rows := Run(RuleOf(t), limit, 1, balance, extras, 0, 0).value.payments;
    SimulatedRowsBalance(t);
    RowInRun(RuleOf(t), limit, balance, extras, k);
    MonthSplits(t, k + 1, OpeningOf(balance, rows, k), extras(k + 1));
  }

  /** The run behind a simulation with rows. */
  lemma SimulationIsARun(debt: Contract, extra: Money, oneTimeMonth: int)
    requires Outcome(debt, extra, oneTimeMonth).Ok? && Outcome(debt, extra, oneTimeMonth).value.payments != []
    ensures Validate(debt, extra).None? && TermsOf(debt).Ok? && TermsOf(debt).value.Valid() && Complete(debt)
    ensures debt.balance.minor >= 0 && extra.minor >= 0
    ensures var t := TermsOf(debt).value;
      Outcome(debt, extra, oneTimeMonth) == Run(RuleOf(t), t.Limit(), 1, debt.balance.minor, MonthExtra(extra.minor, oneTimeMonth), 0, 0)
  {
    RulesAreMonotone(debt, extra);
  }

  /** A row as the contract gives it. */
  ghost predicate RowIsExact(debt: Contract, offer: int, month: int, opening: int, p: Payment) {
    && Complete(debt)
    && RowSplits(debt.repayment, FixedAmount(debt), debt.term, debt.restrictedMonths, offer, month, opening, p)
    && RowRounds(debt.apr.value, debt.feeRate, p)
  }

  lemma RowLikeTerms(debt: Contract, extra: Money, t: Terms, offer: int, month: int, opening: int, p: Payment)
    requires Validate(debt, extra).None? && TermsOf(debt) == Ok(t) && Complete(debt) && RoundedBy(t, p)
    requires RowSplits(t.repayment, FixedBy(t), t.term, t.restrictedMonths, offer, month, opening, p)
    ensures RowIsExact(debt, offer, month, opening, p)
  {
    SplitsLikeTerms(debt, extra, t, offer, month, opening, p);
    RoundsLikeTerms(debt, extra, t, p);
  }

  /** The whole extra in every month, or in the one-time month alone if there is one. */
  function Offer(extra: int, oneTimeMonth: int, month: int): int {
    if oneTimeMonth <= 0 || month == oneTimeMonth then extra else 0
  }

  /** Every row of a successful simulation is exactly what contract, offer and opening balance say. */
  lemma RowsAreExact(debt: Contract, extra: Money, oneTimeMonth: int, k: nat)
    requires Outcome(debt, extra, oneTimeMonth).Ok? && k < |Outcome(debt, extra, oneTimeMonth).value.payments|
    ensures var rows := Outcome(debt, extra, oneTimeMonth).value.payments;
      RowIsExact(debt, Offer(extra.minor, oneTimeMonth, k + 1), k + 1, OpeningOf(debt.balance.minor, rows, k), rows[k])
  {
    SimulationIsARun(debt, extra, oneTimeMonth);
    var t, rows := TermsOf(debt).value, Outcome(debt, extra, oneTimeMonth).value.payments;
    RowByTerms(t, t.Limit(), debt.balance.minor, MonthExtra(extra.minor, oneTimeMonth), k);
    RowLikeTerms(debt, extra, t, Offer(extra.minor, oneTimeMonth, k + 1), k + 1, OpeningOf(debt.balance.minor, rows, k), rows[k]);
  }

  /** And the first row that closes at zero is the last, within the term or 1200 months. */
  lemma RowsEndAtZero(debt: Contract, extra: Money, oneTimeMonth: int, k: nat)
    requires Outcome(debt, extra, oneTimeMonth).Ok? && k < |Outcome(debt, extra, oneTimeMonth).value.payments|
    ensures var rows := Outcome(debt, extra, oneTimeMonth).value.payments;
      && (k + 1 == |rows| <==> rows[k].closing == 0)
      && k + 1 <= if debt.repayment.Annuity? || debt.repayment.EqualPrincipal? then debt.term else 1200
  {
    SimulationIsARun(debt, extra, oneTimeMonth);
    var t := TermsOf(debt).value;
    RowByTerms(t, t.Limit(), debt.balance.minor, MonthExtra(extra.minor, oneTimeMonth), k);
    TermsAreTheContract(debt, extra, t);
  }

  /** A run ends with the first row that closes at zero. */
  lemma EndsAtZero(rule: MonthRule, limit: int, balance: int, extras: int -> int, rows: seq<Payment>, k: nat)
    requires Chained(rule, limit, 1, balance, extras, rows) && FinalBalance(balance, rows) == 0 && k < |rows|
    ensures k + 1 == |rows| <==> rows[k].closing == 0
  {
    if k + 1 < |rows| {
      ChainedRow(rule, limit, 1, balance, extras, rows, k + 1);
    } else {
      LastRowCloses(balance, rows);
    }
  }

  lemma {:induction false} LastRowCloses(balance: int, rows: seq<Payment>)
    requires rows != []
    ensures rows[|rows| - 1].closing == FinalBalance(balance, rows)
    decreases |rows|
  {
    if |rows| > 1 {
      LastRowCloses(rows[0].closing, rows[1..]);
    }
  }

  // ---------- what may be simulated ----------

  predicate OneCurrency(debt: Contract, extra: Money) {
    && debt.balance.currency != ""
    && debt.originalPrincipal.currency == debt.minimumPayment.currency == debt.scheduledPayment.currency == extra.currency
       == debt.balance.currency
  }

  predicate NothingNegative(debt: Contract, extra: Money) {
    && debt.balance.minor >= 0 && debt.originalPrincipal.minor >= 0 && debt.minimumPayment.minor >= 0
    && debt.scheduledPayment.minor >= 0 && extra.minor >= 0
  }

  /** Rates that are not negative, a day of the month, and what the repayment rule asks for. */
  predicate Complete(debt: Contract) {
    && debt.apr.Some? && debt.apr.value >= 0.0 && (debt.feeRate.Some? ==> debt.feeRate.value >= 0.0)
    && debt.restrictedMonths >= 0 && 1 <= debt.dueDay <= 31 && debt.rateType != UnknownRate
    && match debt.repayment
       case Annuity => debt.term >= 1
       case EqualPrincipal => debt.term >= 1
       case Revolving => debt.minimumPayment.minor >= 1
       case Custom => debt.scheduledPayment.minor >= 1
       case UnknownRepayment => false
  }

  predicate RunError(e: DebtError) {
    e == NonAmortizing || e.AmountOverflow?
  }

  ghost predicate FailsOnlySo(rule: MonthRule) {
    forall month: int, opening: int, extra: int {:trigger rule(month, opening, extra)} ::
      rule(month, opening, extra).Err? ==> RunError(rule(month, opening, extra).error)
  }

  lemma {:induction false} RunFailsOnlySo(rule: MonthRule, limit: int, month: int, balance: int, extras: int -> int, interestSoFar: int, feesSoFar: int)
    requires FailsOnlySo(rule)
    ensures var r := Run(rule, limit, month, balance, extras, interestSoFar, feesSoFar); r.Err? ==> RunError(r.error)
    decreases limit + 1 - month
  {
    if month <= limit && balance > 0 {
      var extra := extras(month);
      var row := rule(month, balance, extra);
      if row.Ok? {
        RunFailsOnlySo(rule, limit, month + 1, row.value.closing, extras, interestSoFar + row.value.interest, feesSoFar + row.value.fee);
      }
    }
  }

  /** Which contracts are refused, with which error: first for currencies, then for negative amounts, then for a missing
      rate, then for anything else that is missing or out of range. Any other failure is one of the months simulated. */
  lemma RefusedExactly(debt: Contract, extra: Money, oneTimeMonth: int)
    ensures var r := Outcome(debt, extra, oneTimeMonth);
      && (r == Err(DebtCurrencyMismatch) <==> !OneCurrency(debt, extra))
      && (r == Err(AprRequired) <==> OneCurrency(debt, extra) && NothingNegative(debt, extra) && debt.apr.None?)
      && (r == Err(InvalidDebt) <==> OneCurrency(debt, extra)
                                     && (!NothingNegative(debt, extra) || (debt.apr.Some? && !Complete(debt))))
      && r != Err(InvalidStrategy)
  {
    if Validate(debt, extra).None? && debt.balance.minor != 0 && TermsOf(debt).Ok? {
      var t := TermsOf(debt).value;
      RunFailsOnlySo(RuleOf(t), t.Limit(), 1, debt.balance.minor, MonthExtra(extra.minor, oneTimeMonth), 0, 0);
    }
  }
}
