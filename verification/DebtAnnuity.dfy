/** Annuity and equal-principal contracts: repayment within the term, and how far rounding can drift. */
module DebtAnnuity {
  import opened Results
  import opened Integers
  import opened Money
  import opened Rounding
  import opened DebtContract
  import opened DebtSimulator
  import opened DebtAccounting
  import opened DebtExtraPayments

  // ---------- the exact, unrounded schedule ----------

  /** The balance after `k` months when every amount is exact: b(k+1) = (1+r) b(k) - a. */
  ghost function ExactBalance(principal: real, payment: real, rate: real, k: nat): real {
    if k == 0 then principal else (1.0 + rate) * ExactBalance(principal, payment, rate, k - 1) - payment
  }

  /** The sum of (1+r)^j for j below k. */
  ghost function GeometricSum(rate: real, k: nat): real {
    if k == 0 then 0.0 else GeometricSum(rate, k - 1) + Pow(1.0 + rate, k - 1)
  }

  lemma {:induction false} GeometricSumStep(rate: real, k: nat)
    requires rate >= 0.0
    ensures GeometricSum(rate, k + 1) == (1.0 + rate) * GeometricSum(rate, k) + 1.0
    ensures GeometricSum(rate, k) >= 0.0
  {
    if k > 0 {
      GeometricSumStep(rate, k - 1);
      PowAtLeastOne(1.0 + rate, k - 1);
      var q, g, p := 1.0 + rate, GeometricSum(rate, k - 1), Pow(1.0 + rate, k - 1);
      assert q * (g + p) == q * g + q * p;
      assert Pow(q, k) == q * p;
    }
  }

  lemma {:induction false} PowMonotone(base: real, k: nat, n: nat)
    requires base >= 1.0 && k <= n
    ensures Pow(base, k) <= Pow(base, n)
    decreases n
  {
    if k < n {
      PowMonotone(base, k, n - 1);
      PowAtLeastOne(base, n - 1);
      ProductNotNegative(base - 1.0, Pow(base, n - 1));
    }
  }

  /** The level payment is defined by (F-1) a = P r F. */
  lemma LevelPaymentEquation(principal: int, rate: real, factor: real)
    requires factor > 1.0
    ensures (factor - 1.0) * LevelPayment(principal, rate, factor) == principal as real * rate * factor
  {
    var numerator, d := principal as real * rate * factor, factor - 1.0;
    assert d * (numerator / d) == numerator;
  }

  lemma ClosedFormStep(p: real, r: real, f: real, pow: real, b: real, a: real)
    requires (f - 1.0) * b == p * (f - pow)
    requires (f - 1.0) * a == p * r * f
    ensures (f - 1.0) * ((1.0 + r) * b - a) == p * (f - (1.0 + r) * pow)
  {
    var x := (f - 1.0) * b;
    calc {
      (f - 1.0) * ((1.0 + r) * b - a);
      (f - 1.0) * b * (1.0 + r) - (f - 1.0) * a;
      p * (f - pow) * (1.0 + r) - p * r * f;
      p * ((f - pow) * (1.0 + r) - r * f);
      { assert (f - pow) * (1.0 + r) - r * f == f - (1.0 + r) * pow; }
      p * (f - (1.0 + r) * pow);
    }
  }

  lemma ClosedFormNext(p: real, r: real, f: real, pow: real, b: real, a: real, nextPow: real, nextBalance: real)
    requires (f - 1.0) * b == p * (f - pow) && (f - 1.0) * a == p * r * f
    requires nextPow == (1.0 + r) * pow && nextBalance == (1.0 + r) * b - a
    ensures (f - 1.0) * nextBalance == p * (f - nextPow)
  {
    ClosedFormStep(p, r, f, pow, b, a);
  }

  lemma {:induction false} ClosedForm(p: real, a: real, rate: real, f: real, k: nat)
    requires (f - 1.0) * a == p * rate * f
    ensures (f - 1.0) * ExactBalance(p, a, rate, k) == p * (f - Pow(1.0 + rate, k))
  {
    if k == 0 {
      assert Pow(1.0 + rate, 0) == 1.0 && ExactBalance(p, a, rate, 0) == p;
    } else {
      ClosedForm(p, a, rate, f, k - 1);
      ClosedFormNext(p, rate, f, Pow(1.0 + rate, k - 1), ExactBalance(p, a, rate, k - 1), a,
                     Pow(1.0 + rate, k), ExactBalance(p, a, rate, k));
    }
  }

  /** Closed form of the exact schedule: (F-1) b(k) = P (F - (1+r)^k) with F = (1+r)^n. */
  lemma ExactClosedForm(principal: int, rate: real, n: nat, k: nat)
    requires rate > 0.0 && n > 0 && Pow(1.0 + rate, n) > 1.0
    ensures var f := Pow(1.0 + rate, n);
      (f - 1.0) * ExactBalance(principal as real, LevelPayment(principal, rate, f), rate, k)
      == principal as real * (f - Pow(1.0 + rate, k))
  {
    var f := Pow(1.0 + rate, n);
    LevelPaymentEquation(principal, rate, f);
    ClosedForm(principal as real, LevelPayment(principal, rate, f), rate, f, k);
  }

  lemma {:induction false} ExactZeroRate(principal: int, n: nat, k: nat)
    requires n > 0 && k <= n
    ensures ExactBalance(principal as real, principal as real / n as real, 0.0, k)
            == principal as real - k as real * (principal as real / n as real)
  {
    if k > 0 {
      ExactZeroRate(principal, n, k - 1);
    }
  }

  /** The exact schedule never goes negative within the term, and ends at zero. */
  lemma ExactScheduleEndsAtZero(principal: nat, rate: real, n: nat, k: nat)
    requires rate >= 0.0 && n > 0 && k <= n
    ensures ExactBalance(principal as real, ExactAnnuity(principal, n, rate), rate, k) >= 0.0
    ensures k == n ==> ExactBalance(principal as real, ExactAnnuity(principal, n, rate), rate, k) == 0.0
  {
    if rate == 0.0 {
      ExactZeroRate(principal, n, k);
      var share := principal as real / n as real;
      assert n as real * share == principal as real;
      assert share >= 0.0;
      assert (n - k) as real * share >= 0.0;
      assert (n - k) as real * share == principal as real - k as real * share;
    } else {
      PowAtLeastOne(1.0 + rate, n);
      ExactClosedForm(principal, rate, n, k);
      PowMonotone(1.0 + rate, k, n);
      var f := Pow(1.0 + rate, n);
      var b := ExactBalance(principal as real, LevelPayment(principal, rate, f), rate, k);
      assert principal as real * (f - Pow(1.0 + rate, k)) >= 0.0;
      SignOfFactor(f - 1.0, b);
    }
  }

  lemma SignOfFactor(d: real, b: real)
    requires d > 0.0 && d * b >= 0.0
    ensures b >= 0.0
    ensures d * b == 0.0 ==> b == 0.0
  {
  }

  /** The level payment covers the first month's interest and never exceeds balance plus that interest. */
  lemma LevelPaymentBounds(principal: nat, rate: real, n: nat)
    requires rate >= 0.0 && n > 0
    ensures principal as real * rate <= ExactAnnuity(principal, n, rate) <= principal as real + principal as real * rate
  {
    if rate == 0.0 {
      EqualShare(principal as real, n);
    } else {
      PowAtLeastOne(1.0 + rate, n);
      var f := Pow(1.0 + rate, n);
      LevelPaymentEquation(principal, rate, f);
      PaymentBetween(principal as real, rate, f, LevelPayment(principal, rate, f));
    }
  }

  lemma EqualShare(p: real, n: nat)
    requires p >= 0.0 && n > 0
    ensures 0.0 <= p / n as real <= p
  {
    var share := p / n as real;
    assert n as real * share == p && share >= 0.0;
    assert (n - 1) as real * share >= 0.0;
    assert (n - 1) as real * share == p - share;
  }

  lemma PaymentBetween(p: real, r: real, f: real, a: real)
    requires p >= 0.0 && r > 0.0 && f >= 1.0 + r && (f - 1.0) * a == p * r * f
    ensures p * r <= a <= p + p * r
  {
    SignOfFactor(f - 1.0, a - p * r) by {
      LowerBoundGap(p, r, f, a);
    }
    SignOfFactor(f - 1.0, p + p * r - a) by {
      UpperBoundGap(p, r, f, a);
    }
  }

  lemma LowerBoundGap(p: real, r: real, f: real, a: real)
    requires p >= 0.0 && r >= 0.0 && (f - 1.0) * a == p * r * f
    ensures (f - 1.0) * (a - p * r) >= 0.0
  {
    calc {
      (f - 1.0) * (a - p * r);
      (f - 1.0) * a - (f - 1.0) * (p * r);
      p * r * f - p * r * f + p * r;
      p * r;
    }
    ProductNotNegative(p, r);
  }

  lemma UpperBoundGap(p: real, r: real, f: real, a: real)
    requires p >= 0.0 && f >= 1.0 + r && (f - 1.0) * a == p * r * f
    ensures (f - 1.0) * (p + p * r - a) >= 0.0
  {
    calc {
      (f - 1.0) * (p + p * r - a);
      (f - 1.0) * (p + p * r) - (f - 1.0) * a;
      (f - 1.0) * (p + p * r) - p * r * f;
      p * f - p + p * r * f - p * r - p * r * f;
      p * (f - 1.0 - r);
    }
    ProductNotNegative(p, f - 1.0 - r);
  }

  lemma ProductNotNegative(x: real, y: real)
    requires x >= 0.0 && y >= 0.0
    ensures x * y >= 0.0
  {
  }

  // ---------- accumulated rounding error ----------

  ghost predicate WithinBound(rounded: int, exact: real, bound: real) {
    -bound <= rounded as real - exact <= bound
  }

  /** One rounded annuity month next to one exact month, both amounts rounded to the nearest unit. */
  lemma MonthDrift(rounded: int, level: int, interest: int, exact: real, payment: real, rate: real, bound: real)
    requires rate >= 0.0 && bound >= 0.0
    requires -bound <= rounded as real - exact <= bound
    requires -0.5 <= interest as real - rounded as real * rate <= 0.5
    requires -0.5 <= level as real - payment <= 0.5
    requires (1.0 + rate) * exact - payment >= 0.0
    ensures var next := rounded + interest - level;
      var gap := (if next > 0 then next else 0) as real - ((1.0 + rate) * exact - payment);
      -((1.0 + rate) * bound + 1.0) <= gap <= (1.0 + rate) * bound + 1.0
  {
    var d := rounded as real - exact;
    assert (1.0 + rate) * (bound - d) >= 0.0 by { ProductNotNegative(1.0 + rate, bound - d); }
    assert (1.0 + rate) * (bound + d) >= 0.0 by { ProductNotNegative(1.0 + rate, bound + d); }
    assert (1.0 + rate) * d == rounded as real + rounded as real * rate - (1.0 + rate) * exact;
  }

  /** The step with the clamp at zero and the last month, which clears the balance as the exact schedule does. */
  lemma AnnuityDriftStep(payment: real, rate: real, last: bool, b: int, after: int, exact: real, bound: real)
    requires rate >= 0.0 && bound >= 0.0
    requires WithinBound(b, exact, bound)
    requires (1.0 + rate) * exact - payment >= 0.0
    requires last ==> (1.0 + rate) * exact - payment == 0.0
    requires var next := b + MultiplyAndRound(b, rate) - HalfUp(payment);
      after == (if last || next <= 0 then 0 else next)
    ensures WithinBound(after, (1.0 + rate) * exact - payment, (1.0 + rate) * bound + 1.0)
  {
    if last {
      ProductNotNegative(1.0 + rate, bound);
    } else {
      HalfUpIsNearest(b as real * rate);
      HalfUpIsNearest(payment);
      MonthDrift(b, HalfUp(payment), MultiplyAndRound(b, rate), exact, payment, rate, bound);
    }
  }

  lemma {:induction false} LastCloses(balance: int, payments: seq<Payment>)
    ensures FinalBalance(balance, payments) == OpeningOf(balance, payments, |payments|)
    decreases |payments|
  {
    if payments != [] {
      LastCloses(payments[0].closing, payments[1..]);
    }
  }

  /** Without extras an annuity balance follows B' = max(0, B + round(r B) - a) until the last month clears it. */
  lemma AnnuityRecurrence(debt: Contract, t: Terms, payments: seq<Payment>, k: nat)
    requires debt.repayment.Annuity? && debt.balance.minor > 0 && debt.term > 0
    requires Validate(debt, Zero(debt.balance.currency)).None?
    requires TermsOf(debt) == Ok(t) && t.fixedScheduled >= 0
    requires Chained(RuleOf(t), debt.term, 1, debt.balance.minor, MonthExtra(0, 0), payments)
    requires FinalBalance(debt.balance.minor, payments) == 0
    requires k < debt.term
    ensures var b := BalanceAfter(debt.balance.minor, payments, k);
      var next := b + MultiplyAndRound(b, MonthlyRate(debt.apr.value)) - t.fixedScheduled;
      BalanceAfter(debt.balance.minor, payments, k + 1) == (if k + 1 == debt.term || next <= 0 then 0 else next)
  {
    LastCloses(debt.balance.minor, payments);
    if k < |payments| {
      ChainedRow(RuleOf(t), debt.term, 1, debt.balance.minor, MonthExtra(0, 0), payments, k);
      var b := BalanceAfter(debt.balance.minor, payments, k);
      assert SimulateMonth(t, k + 1, b, 0) == Ok(payments[k]);
      assert t.interest(b) == MultiplyAndRound(b, MonthlyRate(debt.apr.value));
    } else {
      assert BalanceAfter(debt.balance.minor, payments, k) == 0;
      assert MultiplyAndRound(0, MonthlyRate(debt.apr.value)) == 0;
    }
  }

  /** One month of the rounded schedule: interest and level payment are rounded, and the last month clears the balance. */
  ghost predicate RoundedMonth(balance: int, after: int, payment: real, rate: real, last: bool) {
    var next := balance + MultiplyAndRound(balance, rate) - HalfUp(payment);
    after == (if last || next <= 0 then 0 else next)
  }

  /** `balances` follows the rounded annuity recurrence for a level payment of `payment` rounded half up. */
  ghost predicate FollowsRoundedSchedule(balances: nat -> int, principal: nat, payment: real, rate: real, n: nat) {
    balances(0) == principal && forall k: nat | k < n :: RoundedMonth(balances(k), balances(k + 1), payment, rate, k + 1 == n)
  }

  /** The exact balance after month `k`: never negative, and zero at the end. */
  ghost predicate OwesAt(principal: real, payment: real, rate: real, n: nat, k: nat) {
    ExactBalance(principal, payment, rate, k) >= 0.0 && (k == n ==> ExactBalance(principal, payment, rate, k) == 0.0)
  }

  ghost predicate EndsAtZero(principal: real, payment: real, rate: real, n: nat) {
    forall k: nat | k <= n :: OwesAt(principal, payment, rate, n, k)
  }

  lemma ExactAnnuityEndsAtZero(principal: nat, rate: real, n: nat)
    requires rate >= 0.0 && n > 0
    ensures EndsAtZero(principal as real, ExactAnnuity(principal, n, rate), rate, n)
  {
    var p, payment := principal as real, ExactAnnuity(principal, n, rate);
    forall k: nat | k <= n
      ensures OwesAt(p, payment, rate, n, k)
    {
      ExactScheduleEndsAtZero(principal, rate, n, k);
    }
  }

  ghost predicate ExactMonth(exact: real, after: real, payment: real, rate: real, last: bool) {
    after == (1.0 + rate) * exact - payment >= 0.0 && (last ==> after == 0.0)
  }

  ghost predicate BoundMonth(sum: real, after: real, rate: real) {
    sum >= 0.0 && after == (1.0 + rate) * sum + 1.0
  }

  /** One month of the rounded schedule next to the exact one, with the sum that bounds their distance. */
  ghost predicate ParallelMonth(balance: int, after: int, exact: real, exactAfter: real, sum: real, sumAfter: real,
                                payment: real, rate: real, last: bool) {
    && RoundedMonth(balance, after, payment, rate, last)
    && ExactMonth(exact, exactAfter, payment, rate, last)
    && BoundMonth(sum, sumAfter, rate)
  }

  lemma DriftAt(balance: int, after: int, exact: real, exactAfter: real, sum: real, sumAfter: real, payment: real, rate: real, last: bool)
    requires rate >= 0.0 && WithinBound(balance, exact, sum)
    requires ParallelMonth(balance, after, exact, exactAfter, sum, sumAfter, payment, rate, last)
    ensures WithinBound(after, exactAfter, sumAfter)
  {
    AnnuityDriftStep(payment, rate, last, balance, after, exact, sum);
  }

  lemma {:induction false} DriftByMonths(balances: nat -> int, exacts: nat -> real, sums: nat -> real, payment: real, rate: real,
                                         n: nat, k: nat)
    requires rate >= 0.0 && k <= n && WithinBound(balances(0), exacts(0), sums(0))
    requires forall j: nat | j < n ::
               ParallelMonth(balances(j), balances(j + 1), exacts(j), exacts(j + 1), sums(j), sums(j + 1), payment, rate, j + 1 == n)
    ensures WithinBound(balances(k), exacts(k), sums(k))
    decreases k
  {
    if k > 0 {
      var j := k - 1;
      DriftByMonths(balances, exacts, sums, payment, rate, n, j);
      DriftAt(balances(j), balances(k), exacts(j), exacts(k), sums(j), sums(k), payment, rate, k == n);
    }
  }

  lemma ExactAt(p: real, payment: real, rate: real, n: nat, j: nat)
    requires OwesAt(p, payment, rate, n, j + 1)
    ensures ExactMonth(ExactBalance(p, payment, rate, j), ExactBalance(p, payment, rate, j + 1), payment, rate, j + 1 == n)
  {
  }

  lemma BoundAt(rate: real, j: nat)
    requires rate >= 0.0
    ensures BoundMonth(GeometricSum(rate, j), GeometricSum(rate, j + 1), rate)
  {
    GeometricSumStep(rate, j);
  }

  lemma RoundedScheduleDrift(balances: nat -> int, principal: nat, payment: real, rate: real, n: nat, k: nat)
    requires rate >= 0.0 && k <= n
    requires FollowsRoundedSchedule(balances, principal, payment, rate, n)
    requires EndsAtZero(principal as real, payment, rate, n)
    ensures WithinBound(balances(k), ExactBalance(principal as real, payment, rate, k), GeometricSum(rate, k))
  {
    var p := principal as real;
    ghost var exacts: nat -> real := (j: nat) => ExactBalance(p, payment, rate, j);
    ghost var sums: nat -> real := (j: nat) => GeometricSum(rate, j);
    forall j: nat | j < n
      ensures ParallelMonth(balances(j), balances(j + 1), exacts(j), exacts(j + 1), sums(j), sums(j + 1), payment, rate, j + 1 == n)
    {
      assert OwesAt(p, payment, rate, n, j + 1);
      assert RoundedMonth(balances(j), balances(j + 1), payment, rate, j + 1 == n);
      ExactAt(p, payment, rate, n, j);
      BoundAt(rate, j);
    }
    DriftByMonths(balances, exacts, sums, payment, rate, n, k);
  }

  lemma LevelIsNotNegative(principal: nat, rate: real, n: nat)
    requires rate >= 0.0 && n > 0
    ensures HalfUp(ExactAnnuity(principal, n, rate)) >= 0
  {
    LevelPaymentBounds(principal, rate, n);
    ProductNotNegative(principal as real, rate);
  }

  lemma SimulationFollowsRoundedSchedule(debt: Contract)
    requires debt.repayment.Annuity? && debt.balance.minor > 0
    requires Outcome(debt, Zero(debt.balance.currency), 0).Ok?
    ensures var rate := MonthlyRate(debt.apr.value);
      var payments := Outcome(debt, Zero(debt.balance.currency), 0).value.payments;
      FollowsRoundedSchedule((k: nat) => BalanceAfter(debt.balance.minor, payments, k), debt.balance.minor,
                             ExactAnnuity(debt.balance.minor, debt.term, rate), rate, debt.term)
  {
    var none := Zero(debt.balance.currency);
    var rate, t := MonthlyRate(debt.apr.value), TermsOf(debt).value;
    var payments := Outcome(debt, none, 0).value.payments;
    RulesAreMonotone(debt, none);
    SimulatedRowsBalance(t);
    RunKeepsTheBooks(RuleOf(t), t.Limit(), 1, debt.balance.minor, MonthExtra(0, 0), 0, 0);
    LevelIsNotNegative(debt.balance.minor, rate, debt.term);
    forall k: nat | k < debt.term {
      AnnuityRecurrence(debt, t, payments, k);
    }
  }

  /** With no extra payments, after every month k of the term the rounded balance (zero once paid off) is within
      the sum of (1+r)^j, j < k, minor units of the exact schedule. */
  lemma AnnuityRoundingError(debt: Contract, k: nat)
    requires debt.repayment.Annuity? && debt.balance.minor > 0
    requires Outcome(debt, Zero(debt.balance.currency), 0).Ok?
    requires k <= debt.term
    ensures var rate := MonthlyRate(debt.apr.value);
      var exact := ExactBalance(debt.balance.minor as real, ExactAnnuity(debt.balance.minor, debt.term, rate), rate, k);
      var rounded := BalanceAfter(debt.balance.minor, Outcome(debt, Zero(debt.balance.currency), 0).value.payments, k);
      WithinBound(rounded, exact, GeometricSum(rate, k))
  {
    SimulationFollowsRoundedSchedule(debt);
    var payments := Outcome(debt, Zero(debt.balance.currency), 0).value.payments;
    var p, rate := debt.balance.minor, MonthlyRate(debt.apr.value);
    ExactAnnuityEndsAtZero(p, rate, debt.term);
    RoundedScheduleDrift((i: nat) => BalanceAfter(p, payments, i), p, ExactAnnuity(p, debt.term, rate), rate, debt.term, k);
  }

  // ---------- repayment within the term ----------

  /** Every month that opens with at most `bound` overflows or succeeds without raising the balance, and the
      last month of the term clears it. */
  ghost predicate ClearsByTerm(rule: MonthRule, term: int, bound: int) {
    forall month: int, opening: int, extra: int {:trigger rule(month, opening, extra)} ::
      0 < opening <= bound && month <= term ==>
        match rule(month, opening, extra)
        case Err(e) => e.AmountOverflow?
        case Ok(p) => 0 <= p.closing <= opening && (month == term ==> p.closing == 0)
  }

  lemma {:induction false} TermRunSucceeds(rule: MonthRule, term: int, month: int, balance: int, bound: int, extras: int -> int,
                                           interestSoFar: int, feesSoFar: int)
    requires ClearsByTerm(rule, term, bound) && 0 <= balance <= bound
    requires month <= term || balance == 0
    ensures match Run(rule, term, month, balance, extras, interestSoFar, feesSoFar)
      case Ok(s) => month - 1 + |s.payments| <= term || s.payments == []
      case Err(e) => e.AmountOverflow?
    decreases term + 1 - month
  {
    if balance > 0 {
      var extra := extras(month);
      var row := rule(month, balance, extra);
      if row.Ok? {
        var p := row.value;
        assert 0 <= p.closing <= balance;
        TermRunSucceeds(rule, term, month + 1, p.closing, bound, extras, interestSoFar + p.interest, feesSoFar + p.fee);
      }
    }
  }

  lemma TermContractClearsByTerm(t: Terms, bound: int)
    requires t.Valid() && (t.repayment.Annuity? || t.repayment.EqualPrincipal?)
    requires t.repayment.Annuity? ==> t.interest(bound) <= t.fixedScheduled
    ensures ClearsByTerm(RuleOf(t), t.term, bound)
  {
    forall month: int, opening: int, extra: int | 0 < opening <= bound && month <= t.term
      ensures match RuleOf(t)(month, opening, extra)
        case Err(e) => e.AmountOverflow?
        case Ok(p) => 0 <= p.closing <= opening && (month == t.term ==> p.closing == 0)
    {
      assert t.interest(0) <= t.interest(opening) <= t.interest(bound);
    }
  }

  /** A valid annuity or equal-principal contract is repaid within its remaining term, whatever the extras: the
      only possible failure is an amount that leaves the 64-bit range. */
  lemma TermContractsRepayWithinTerm(debt: Contract, extra: Money, oneTimeMonth: int)
    requires debt.repayment.Annuity? || debt.repayment.EqualPrincipal?
    requires Validate(debt, extra).None?
    ensures match Outcome(debt, extra, oneTimeMonth)
      case Ok(s) => s.PayoffMonths() <= debt.term
      case Err(e) => e.AmountOverflow?
  {
    if debt.balance.minor > 0 && TermsOf(debt).Ok? {
      var t := TermsOf(debt).value;
      RulesAreMonotone(debt, extra);
      LevelCoversInterest(debt);
      TermContractClearsByTerm(t, debt.balance.minor);
      TermRunSucceeds(RuleOf(t), debt.term, 1, debt.balance.minor, debt.balance.minor, MonthExtra(extra.minor, oneTimeMonth), 0, 0);
    }
  }

  lemma RoundedBetween(low: real, x: real, p: int)
    requires low <= x <= p as real + low
    ensures HalfUp(low) <= HalfUp(x) <= p + HalfUp(low)
  {
    HalfUpMonotone(low, x);
    HalfUpMonotone(x, low + p as real);
    HalfUpShift(low, p);
  }

  lemma LevelCoversInterest(debt: Contract)
    requires debt.apr.Some? && debt.apr.value >= 0.0 && debt.term > 0 && debt.balance.minor >= 0
    ensures var rate, p := MonthlyRate(debt.apr.value), debt.balance.minor;
      MultiplyAndRound(p, rate) <= HalfUp(ExactAnnuity(p, debt.term, rate)) <= p + MultiplyAndRound(p, rate)
  {
    var rate, p := MonthlyRate(debt.apr.value), debt.balance.minor;
    LevelPaymentBounds(p, rate, debt.term);
    RoundedBetween(p as real * rate, ExactAnnuity(p, debt.term, rate), p);
  }

  /** Nothing can overflow if balance plus first-month interest over the whole term fits, and so do the largest
      possible fees of that many months. The fees are zero without a fee rate or without an extra. */
  lemma TermContractsFit(debt: Contract, extra: Money, oneTimeMonth: int)
    requires debt.repayment.Annuity? || debt.repayment.EqualPrincipal?
    requires Validate(debt, extra).None?
    requires debt.balance.minor + debt.term * MultiplyAndRound(debt.balance.minor, MonthlyRate(debt.apr.value)) <= MAX_INT64
    requires debt.term * FeeCap(debt, extra) <= MAX_INT64
    ensures Outcome(debt, extra, oneTimeMonth).Ok?
  {
    var p, rate := debt.balance.minor, MonthlyRate(debt.apr.value);
    if p > 0 {
      var first := MultiplyAndRound(p, rate);
      ScaleMonotone(0, p, rate);
      AtLeastOnce(debt.term, first);
      LevelCoversInterest(debt);
      EqualShareBounds(p, debt.term);
      var t := TermsOf(debt).value;
      RulesAreMonotone(debt, extra);
      assert t.interest(p) == first && t.fee(Min(extra.minor, p)) == FeeCap(debt, extra);
      FittingTerms(t, p, extra.minor, MonthExtra(extra.minor, oneTimeMonth));
    }
  }

  lemma NoExtraNeedsNoFeeRoom(debt: Contract, extra: Money)
    requires Validate(debt, extra).None?
    requires extra.minor == 0 || debt.feeRate.None? || debt.feeRate.value == 0.0
    ensures FeeCap(debt, extra) == 0
  {
    assert MultiplyAndRound(0, if debt.feeRate.Some? then debt.feeRate.value else 0.0) == 0;
  }

  lemma AtLeastOnce(times: int, amount: int)
    requires times >= 1 && amount >= 0
    ensures times * amount >= amount
  {
  }

  lemma FittingTerms(t: Terms, balance: int, offered: int, extras: int -> int)
    requires t.Valid() && (t.repayment.Annuity? || t.repayment.EqualPrincipal?) && t.term >= 1 && balance > 0
    requires t.repayment.Annuity? ==> t.interest(balance) <= t.fixedScheduled
    requires offered >= 0 && forall m: int :: extras(m) <= offered
    requires balance + t.term * t.interest(balance) <= MAX_INT64
    requires t.term * t.fee(Min(offered, balance)) <= MAX_INT64
    ensures Run(RuleOf(t), t.term, 1, balance, extras, 0, 0).Ok?
  {
    var first, cap := t.interest(balance), t.fee(Min(offered, balance));
    assert t.interest(0) <= first && t.fee(0) <= cap;
    AtLeastOnce(t.term, first);
    AtLeastOnce(t.term, cap);
    RowsFit(t, balance, offered);
    FittingRunSucceeds(RuleOf(t), t.term, 1, balance, balance, offered, first, cap, extras, 0, 0);
  }

  lemma EqualShareBounds(principal: nat, n: nat)
    requires n > 0
    ensures 0 <= HalfUp(principal as real / n as real) <= principal
  {
    var share := principal as real / n as real;
    assert n as real * share == principal as real && share >= 0.0;
    assert (n - 1) as real * share >= 0.0;
    assert (n - 1) as real * share == principal as real - share;
    HalfUpMonotone(share, principal as real);
  }

  ghost predicate RowFits(month: int, opening: int, term: int, first: int, cap: int, r: Result<Payment, DebtError>) {
    && r.Ok? && 0 <= r.value.interest <= first && 0 <= r.value.fee <= cap
    && 0 <= r.value.closing <= opening && (month == term ==> r.value.closing == 0)
  }

  ghost predicate AllRowsFit(rule: MonthRule, term: int, bound: int, offered: int, first: int, cap: int) {
    forall m: int, opening: int, extra: int {:trigger rule(m, opening, extra)} ::
      0 < opening <= bound && m <= term && extra <= offered ==> RowFits(m, opening, term, first, cap, rule(m, opening, extra))
  }

  lemma RowsFit(t: Terms, bound: int, offered: int)
    requires t.Valid() && (t.repayment.Annuity? || t.repayment.EqualPrincipal?) && offered >= 0
    requires t.repayment.Annuity? ==> t.interest(bound) <= t.fixedScheduled
    requires bound + t.interest(bound) <= MAX_INT64 && t.fee(Min(offered, bound)) <= MAX_INT64
    ensures AllRowsFit(RuleOf(t), t.term, bound, offered, t.interest(bound), t.fee(Min(offered, bound)))
  {
    forall month: int, opening: int, extra: int | 0 < opening <= bound && month <= t.term && extra <= offered
      ensures RowFits(month, opening, t.term, t.interest(bound), t.fee(Min(offered, bound)), RuleOf(t)(month, opening, extra))
    {
      RowFitsAt(t, month, opening, extra, bound, offered);
    }
  }

  lemma RowFitsAt(t: Terms, month: int, opening: int, extra: int, bound: int, offered: int)
    requires t.Valid() && (t.repayment.Annuity? || t.repayment.EqualPrincipal?)
    requires t.repayment.Annuity? ==> t.interest(bound) <= t.fixedScheduled
    requires bound + t.interest(bound) <= MAX_INT64 && t.fee(Min(offered, bound)) <= MAX_INT64
    requires 0 < opening <= bound && month <= t.term && extra <= offered && offered >= 0
    ensures RowFits(month, opening, t.term, t.interest(bound), t.fee(Min(offered, bound)), SimulateMonth(t, month, opening, extra))
  {
    var interest := t.interest(opening);
    assert t.interest(0) <= interest <= t.interest(bound);
    var amounts := ScheduledAmounts(t, month, opening, interest);
    assert amounts.Ok? && 0 <= amounts.value.0 <= opening;
    var remaining := opening - amounts.value.0;
    if month > t.restrictedMonths && extra > 0 && remaining > 0 {
      assert t.fee(0) <= t.fee(Min(extra, remaining)) <= t.fee(Min(offered, bound));
    } else {
      assert t.fee(0) <= t.fee(Min(offered, bound));
    }
  }

  lemma {:induction false} FittingRunSucceeds(rule: MonthRule, term: int, month: int, balance: int, bound: int, offered: int,
                                              first: int, cap: int, extras: int -> int, interestSoFar: int, feesSoFar: int)
    requires AllRowsFit(rule, term, bound, offered, first, cap) && forall m: int :: extras(m) <= offered
    requires 0 <= balance <= bound && (month <= term || balance == 0)
    requires first >= 0 && 0 <= interestSoFar && cap >= 0 && 0 <= feesSoFar
    requires month <= term ==> interestSoFar + (term + 1 - month) * first <= MAX_INT64
    requires month <= term ==> feesSoFar + (term + 1 - month) * cap <= MAX_INT64
    ensures Run(rule, term, month, balance, extras, interestSoFar, feesSoFar).Ok?
    decreases term + 1 - month
  {
    if balance > 0 {
      var extra := extras(month);
      var row := rule(month, balance, extra);
      assert RowFits(month, balance, term, first, cap, row);
      var p := row.value;
      OneLess(term + 1 - month, first);
      OneLess(term + 1 - month, cap);
      FittingRunSucceeds(rule, term, month + 1, p.closing, bound, offered, first, cap, extras,
                         interestSoFar + p.interest, feesSoFar + p.fee);
    }
  }

  lemma OneLess(times: int, amount: int)
    requires times >= 1 && amount >= 0
    ensures times * amount == amount + (times - 1) * amount && (times - 1) * amount >= 0
  {
  }
}
