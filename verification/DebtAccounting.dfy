/** The books of a simulation: every row adds up, rows chain, and the principal paid is the balance owed. */
module DebtAccounting {
  import opened Results
  import opened Money
  import opened Rounding
  import opened DebtContract
  import opened DebtSimulator

  function PrincipalPaid(payments: seq<Payment>): int {
    if payments == [] then 0
    else payments[0].scheduledPrincipal + payments[0].extraPrincipal + PrincipalPaid(payments[1..])
  }

  function InterestPaid(payments: seq<Payment>): int {
    if payments == [] then 0 else payments[0].interest + InterestPaid(payments[1..])
  }

  function FeesPaid(payments: seq<Payment>): int {
    if payments == [] then 0 else payments[0].fee + FeesPaid(payments[1..])
  }

  function FinalBalance(balance: int, payments: seq<Payment>): int
    decreases |payments|
  {
    if payments == [] then balance else FinalBalance(payments[0].closing, payments[1..])
  }

  /** What a row says about itself, whichever rule produced it. */
  predicate RowBalances(opening: int, p: Payment) {
    && p.opening == opening == p.scheduledPrincipal + p.extraPrincipal + p.closing
    && p.scheduledPrincipal >= 0 && p.extraPrincipal >= 0 && p.closing >= 0
    && p.interest >= 0 && p.fee >= 0
  }

  ghost predicate RowsBalance(rule: MonthRule) {
    forall month: int, opening: int, extra: int {:trigger rule(month, opening, extra)} ::
      opening > 0 && rule(month, opening, extra).Ok? ==> RowBalances(opening, rule(month, opening, extra).value)
  }

  /** Rows follow the rule in consecutive months within the limit, each opening where the previous one closed. */
  ghost predicate Chained(rule: MonthRule, limit: int, month: int, balance: int, extras: int -> int, payments: seq<Payment>)
    decreases |payments|
  {
    payments == [] ||
    (&& balance > 0 && month <= limit
     && rule(month, balance, extras(month)) == Ok(payments[0])
     && Chained(rule, limit, month + 1, payments[0].closing, extras, payments[1..]))
  }

  function OpeningOf(balance: int, payments: seq<Payment>, k: nat): int
    requires k <= |payments|
  {
    if k == 0 then balance else payments[k - 1].closing
  }

  /** The chain seen row by row. */
  lemma {:induction false} ChainedRow(rule: MonthRule, limit: int, month: int, balance: int, extras: int -> int, payments: seq<Payment>, k: nat)
    requires Chained(rule, limit, month, balance, extras, payments) && k < |payments|
    ensures var opening := OpeningOf(balance, payments, k);
      && opening > 0 && month + k <= limit
      && rule(month + k, opening, extras(month + k)) == Ok(payments[k])
    decreases k
  {
    if k > 0 {
      ChainedRow(rule, limit, month + 1, payments[0].closing, extras, payments[1..], k - 1);
      assert month + 1 + (k - 1) == month + k;
    }
  }

  /** Every successful run chains opening to closing balances down to zero, pays off exactly the balance it
      started from, and reports the interest and the fees of its own rows. */
  lemma {:induction false} RunKeepsTheBooks(rule: MonthRule, limit: int, month: int, balance: int, extras: int -> int,
                                            interestSoFar: int, feesSoFar: int)
    requires RowsBalance(rule) && balance >= 0 && InInt64(interestSoFar) && InInt64(feesSoFar)
    requires Run(rule, limit, month, balance, extras, interestSoFar, feesSoFar).Ok?
    ensures var s := Run(rule, limit, month, balance, extras, interestSoFar, feesSoFar).value;
      && Chained(rule, limit, month, balance, extras, s.payments)
      && FinalBalance(balance, s.payments) == 0
      && PrincipalPaid(s.payments) == balance
      && s.totalInterest == interestSoFar + InterestPaid(s.payments) >= interestSoFar
      && s.totalFees == feesSoFar + FeesPaid(s.payments) >= feesSoFar
      && InInt64(s.totalInterest) && InInt64(s.totalFees)
    decreases limit + 1 - month
  {
    if month <= limit && balance > 0 {
      var extra := extras(month);
      var p := rule(month, balance, extra).value;
      assert p.opening == balance;
      RunKeepsTheBooks(rule, limit, month + 1, p.closing, extras, interestSoFar + p.interest, feesSoFar + p.fee);
      var rest := Run(rule, limit, month + 1, p.closing, extras, interestSoFar + p.interest, feesSoFar + p.fee).value.payments;
      assert ([p] + rest)[1..] == rest;
    }
  }

  lemma SimulatedRowsBalance(t: Terms)
    requires t.Valid()
    ensures RowsBalance(RuleOf(t))
  {
    forall month: int, opening: int, extra: int | opening > 0 && RuleOf(t)(month, opening, extra).Ok?
      ensures RowBalances(opening, RuleOf(t)(month, opening, extra).value)
    {
      var p := SimulateMonth(t, month, opening, extra).value;
      assert t.interest(0) <= t.interest(opening);
      if p.extraPrincipal > 0 {
        assert t.fee(0) <= t.fee(p.extraPrincipal);
      }
    }
  }

  /** A row of a simulation of `debt` that had at most `offered` on the table every month. */
  ghost predicate RowInContract(debt: Contract, offered: int, month: int, opening: int, p: Payment)
    requires debt.apr.Some?
  {
    && p.month == month && p.opening == opening > 0
    && p.interest == MultiplyAndRound(opening, MonthlyRate(debt.apr.value)) >= 0
    && p.scheduledPayment == p.scheduledPrincipal + p.interest
    && p.opening == p.scheduledPrincipal + p.extraPrincipal + p.closing
    && p.scheduledPrincipal >= 0 && p.extraPrincipal >= 0
    && (p.extraPrincipal > 0 ==> p.month > debt.restrictedMonths && p.extraPrincipal <= offered)
  }

  lemma SimulatedRowInContract(debt: Contract, extra: Money, t: Terms, month: int, opening: int, offer: int)
    requires Validate(debt, extra).None? && TermsOf(debt) == Ok(t) && t.Valid()
    requires opening > 0 && offer <= extra.minor
    requires SimulateMonth(t, month, opening, offer).Ok?
    ensures RowInContract(debt, extra.minor, month, opening, SimulateMonth(t, month, opening, offer).value)
  {
    assert t.interest(0) <= t.interest(opening);
    assert t.interest(opening) == MultiplyAndRound(opening, MonthlyRate(debt.apr.value));
  }

  /** The books of a whole simulation of a contract. */
  lemma SimulationKeepsTheBooks(debt: Contract, extra: Money, oneTimeMonth: int)
    requires Outcome(debt, extra, oneTimeMonth).Ok?
    ensures var s := Outcome(debt, extra, oneTimeMonth).value;
      && PrincipalPaid(s.payments) == debt.balance.minor
      && FinalBalance(debt.balance.minor, s.payments) == 0
      && s.totalInterest == InterestPaid(s.payments)
      && s.totalFees == FeesPaid(s.payments)
      && 0 <= s.totalInterest <= MAX_INT64 && 0 <= s.totalFees <= MAX_INT64
      && (forall k | 0 <= k < |s.payments| ::
            RowInContract(debt, extra.minor, k + 1, OpeningOf(debt.balance.minor, s.payments, k), s.payments[k]))
  {
    if debt.balance.minor != 0 {
      var t := TermsOf(debt).value;
      var extras := MonthExtra(extra.minor, oneTimeMonth);
      RulesAreMonotone(debt, extra);
      SimulatedRowsBalance(t);
      RunKeepsTheBooks(RuleOf(t), t.Limit(), 1, debt.balance.minor, extras, 0, 0);
      var payments := Outcome(debt, extra, oneTimeMonth).value.payments;
      forall k | 0 <= k < |payments|
        ensures RowInContract(debt, extra.minor, k + 1, OpeningOf(debt.balance.minor, payments, k), payments[k])
      {
        ChainedRow(RuleOf(t), t.Limit(), 1, debt.balance.minor, extras, payments, k);
        SimulatedRowInContract(debt, extra, t, k + 1, OpeningOf(debt.balance.minor, payments, k), extras(k + 1));
      }
    }
  }
}
