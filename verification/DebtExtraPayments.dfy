/** Extra payments never hurt: two runs of one contract, compared month by month. */
module DebtExtraPayments {
  import opened Results
  import opened Money
  import opened DebtContract
  import opened DebtSimulator
  import opened DebtAccounting

  /** `fewer` offers at most what `more` offers, in every month. */
  ghost predicate OffersAtMost(fewer: int -> int, more: int -> int) {
    forall month: int :: 0 <= fewer(month) <= more(month)
  }

  predicate FeeOverflow(e: DebtError) {
    e == AmountOverflow(InFee) || e == AmountOverflow(InTotalFees)
  }

  predicate MonotoneMonth(rule: MonthRule, month: int, high: int, low: int, less: int, more: int) {
    0 < low <= high && 0 <= less <= more && rule(month, high, less).Ok? ==>
      NoWorseMonth(rule(month, high, less).value, rule(month, low, more))
  }

  /** A month that works for a balance works, with no more interest and no higher closing balance, for a
      smaller balance and a larger extra, unless the fee for the larger extra overflows. */
  ghost predicate MonotoneMonths(rule: MonthRule) {
    forall month: int, high: int, low: int, less: int, more: int :: MonotoneMonth(rule, month, high, low, less, more)
  }

  predicate NoWorseMonth(p: Payment, r: Result<Payment, DebtError>) {
    if r.Err? then r.error == AmountOverflow(InFee)
    else r.value.closing <= p.closing && r.value.interest <= p.interest
  }

  /** The scheduled part alone: a smaller balance leaves no more after it. */
  lemma ScheduledPartIsMonotone(t: Terms, month: int, high: int, low: int)
    requires t.Valid() && 0 < low <= high && InInt64(t.interest(high))
    requires ScheduledAmounts(t, month, high, t.interest(high)).Ok?
    ensures t.interest(0) <= t.interest(low) <= t.interest(high)
    ensures var r := ScheduledAmounts(t, month, low, t.interest(low));
      r.Ok? && low - r.value.0 <= high - ScheduledAmounts(t, month, high, t.interest(high)).value.0
  {
  }

  lemma SimulatedMonthIsMonotone(t: Terms, month: int, high: int, low: int, less: int, more: int)
    requires t.Valid()
    ensures MonotoneMonth(RuleOf(t), month, high, low, less, more)
  {
    if 0 < low <= high && 0 <= less <= more && RuleOf(t)(month, high, less).Ok? {
      ScheduledPartIsMonotone(t, month, high, low);
    }
  }

  lemma SimulatedMonthsAreMonotone(t: Terms)
    requires t.Valid()
    ensures MonotoneMonths(RuleOf(t))
  {
    forall month: int, high: int, low: int, less: int, more: int
      ensures MonotoneMonth(RuleOf(t), month, high, low, less, more)
    {
      SimulatedMonthIsMonotone(t, month, high, low, less, more);
    }
  }

  /** The balance after the k-th row, zero once the list has ended. */
  function BalanceAfter(balance: int, payments: seq<Payment>, k: nat): int {
    if k == 0 then balance
    else if k <= |payments| then payments[k - 1].closing
    else 0
  }

  ghost predicate NoWorse(high: int, worse: Simulation, low: int, better: Simulation) {
    && |better.payments| <= |worse.payments|
    && better.totalInterest <= worse.totalInterest
    && forall k: nat :: BalanceAfter(low, better.payments, k) <= BalanceAfter(high, worse.payments, k)
  }

  lemma NoWorseFromTail(high: int, p: Payment, worse: Simulation, low: int, q: Payment, better: Simulation)
    requires low <= high
    requires NoWorse(p.closing, worse, q.closing, better)
    ensures NoWorse(high, worse.(payments := [p] + worse.payments), low, better.(payments := [q] + better.payments))
  {
    forall k: nat
      ensures BalanceAfter(low, [q] + better.payments, k) <= BalanceAfter(high, [p] + worse.payments, k)
    {
      if k > 0 {
        assert BalanceAfter(q.closing, better.payments, k - 1) <= BalanceAfter(p.closing, worse.payments, k - 1);
      }
    }
  }

  lemma PaidOffIsNoWorse(rule: MonthRule, limit: int, month: int, high: int, fewer: int -> int,
                         interestHigh: int, feesHigh: int, interestLow: int, feesLow: int)
    requires RowsBalance(rule) && 0 <= high && interestLow <= interestHigh && InInt64(interestHigh) && InInt64(feesHigh)
    requires Run(rule, limit, month, high, fewer, interestHigh, feesHigh).Ok?
    ensures NoWorse(high, Run(rule, limit, month, high, fewer, interestHigh, feesHigh).value, 0, Simulation([], interestLow, feesLow))
  {
    var payments := Run(rule, limit, month, high, fewer, interestHigh, feesHigh).value.payments;
    RunKeepsTheBooks(rule, limit, month, high, fewer, interestHigh, feesHigh);
    forall k: nat
      ensures 0 <= BalanceAfter(high, payments, k)
    {
      if 0 < k <= |payments| {
        ChainedRow(rule, limit, month, high, fewer, payments, k - 1);
        var extra := fewer(month + (k - 1));
        assert rule(month + (k - 1), OpeningOf(high, payments, k - 1), extra).value.closing >= 0;
      }
    }
  }

  /** `r` succeeds no worse than `worse`, or fails on a fee. */
  ghost predicate NoWorseOrFee(high: int, worse: Simulation, low: int, r: Result<Simulation, DebtError>) {
    if r.Err? then FeeOverflow(r.error) else NoWorse(high, worse, low, r.value)
  }

  /** The first month of two runs, given how the rest of them compare. */
  lemma FirstMonths(rule: MonthRule, limit: int, month: int, high: int, low: int, fewer: int -> int, more: int -> int,
                    interestHigh: int, feesHigh: int, interestLow: int, feesLow: int, p: Payment, q: Payment)
    requires month <= limit && 0 < low <= high && InInt64(interestLow + q.interest) && InInt64(feesLow + q.fee)
    requires rule(month, high, fewer(month)) == Ok(p) && rule(month, low, more(month)) == Ok(q)
    requires Run(rule, limit, month, high, fewer, interestHigh, feesHigh).Ok?
    requires var worse := Run(rule, limit, month + 1, p.closing, fewer, interestHigh + p.interest, feesHigh + p.fee);
      var better := Run(rule, limit, month + 1, q.closing, more, interestLow + q.interest, feesLow + q.fee);
      worse.Ok? && NoWorseOrFee(p.closing, worse.value, q.closing, better)
    ensures NoWorseOrFee(high, Run(rule, limit, month, high, fewer, interestHigh, feesHigh).value, low,
                         Run(rule, limit, month, low, more, interestLow, feesLow))
  {
    var worse := Run(rule, limit, month + 1, p.closing, fewer, interestHigh + p.interest, feesHigh + p.fee).value;
    var better := Run(rule, limit, month + 1, q.closing, more, interestLow + q.interest, feesLow + q.fee);
    if better.Ok? {
      NoWorseFromTail(high, p, worse, low, q, better.value);
    }
  }

  /** If the run with the smaller extras succeeds, so does the run with the larger ones (fee overflow aside):
      with pointwise lower balances, no more months and no more interest. Holds for every repayment rule. */
  lemma {:induction false} ExtraNeverHurts(
      rule: MonthRule, limit: int, month: int, high: int, low: int, fewer: int -> int, more: int -> int,
      interestHigh: int, feesHigh: int, interestLow: int, feesLow: int)
    requires RowsBalance(rule) && MonotoneMonths(rule) && OffersAtMost(fewer, more)
    requires 0 <= low <= high && 0 <= interestLow <= interestHigh && 0 <= feesLow
    requires InInt64(interestHigh) && InInt64(feesHigh)
    requires Run(rule, limit, month, high, fewer, interestHigh, feesHigh).Ok?
    ensures NoWorseOrFee(high, Run(rule, limit, month, high, fewer, interestHigh, feesHigh).value, low,
                         Run(rule, limit, month, low, more, interestLow, feesLow))
    decreases limit + 1 - month
  {
    if low == 0 {
      PaidOffIsNoWorse(rule, limit, month, high, fewer, interestHigh, feesHigh, interestLow, feesLow);
    } else {
      var less, larger := fewer(month), more(month);
      var p, step := rule(month, high, less).value, rule(month, low, larger);
      assert MonotoneMonth(rule, month, high, low, less, larger);
      if step.Ok? && InInt64(feesLow + step.value.fee) {
        var q := step.value;
        assert RowBalances(high, p) && RowBalances(low, q);
        ExtraNeverHurts(rule, limit, month + 1, p.closing, q.closing, fewer, more,
                        interestHigh + p.interest, feesHigh + p.fee, interestLow + q.interest, feesLow + q.fee);
        FirstMonths(rule, limit, month, high, low, fewer, more, interestHigh, feesHigh, interestLow, feesLow, p, q);
      }
    }
  }
}
