/** The month-by-month loan simulation: four repayment rules, prepayment restrictions, fees and extra payments. */
module DebtSimulator {
  import opened Results
  import opened Integers
  import opened Money
  import opened Rounding
  import opened DebtContract

  const MAX_SIMULATION_MONTHS: int := 1200

  /** Amounts are minor units of the one currency that `Validate` establishes. */
  datatype Payment = Payment(
    month: int,
    opening: int,
    interest: int,
    scheduledPayment: int,
    scheduledPrincipal: int,
    extraPrincipal: int,
    fee: int,
    closing: int)

  datatype Simulation = Simulation(payments: seq<Payment>, totalInterest: int, totalFees: int) {
    function PayoffMonths(): nat {
      |payments|
    }
  }

  /** What one simulated month needs of the contract. `payment` is the configured minimum or custom payment;
      `interest` and `fee` round a share of an amount to minor units, before the 64-bit range check. */
  datatype Terms = Terms(
    repayment: RepaymentType,
    term: int,
    fixedScheduled: int,
    equalPrincipal: int,
    payment: int,
    restrictedMonths: int,
    interest: int -> int,
    fee: int -> int)
  {
    function Limit(): int {
      if repayment.Revolving? || repayment.Custom? then MAX_SIMULATION_MONTHS else term
    }

    ghost predicate Valid() {
      && RoundsMonotonically(interest)
      && RoundsMonotonically(fee)
      && InInt64(fixedScheduled) && InInt64(payment) && equalPrincipal >= 0
    }
  }

  function Payable(principal: int, interest: int): Result<(int, int), DebtError> {
    if InInt64(principal + interest) then Ok((principal, principal + interest)) else Err(AmountOverflow(InPayment))
  }

  /** The scheduled principal and payment of one month. */
  function ScheduledAmounts(t: Terms, month: int, opening: int, interest: int): Result<(int, int), DebtError> {
    match t.repayment
    case Annuity =>
      if month == t.term then Payable(opening, interest)
      else if t.fixedScheduled - interest < 0 then Err(NonAmortizing)
      else Payable(Min(t.fixedScheduled - interest, opening), interest)
    case EqualPrincipal =>
      Payable(if month == t.term then opening else Min(t.equalPrincipal, opening), interest)
    case Revolving | Custom =>
      if !InInt64(opening + interest) then Err(AmountOverflow(InPayment))
      else
        var principal := Min(t.payment, opening + interest) - interest;
        if principal <= 0 then Err(NonAmortizing) else Payable(Min(principal, opening), interest)
    case UnknownRepayment => Err(InvalidDebt)
  }

  function SimulateMonth(t: Terms, month: int, opening: int, extra: int): Result<Payment, DebtError> {
    var interest := t.interest(opening);
    if !InInt64(interest) then Err(AmountOverflow(InInterest))
    else match ScheduledAmounts(t, month, opening, interest)
      case Err(e) => Err(e)
      case Ok((principal, payment)) =>
        var remaining := opening - principal;
        var extraPrincipal :=
          if month > t.restrictedMonths && extra > 0 && remaining > 0 then Min(extra, remaining) else 0;
        var fee := if extraPrincipal > 0 then t.fee(extraPrincipal) else 0;
        if !InInt64(fee) then Err(AmountOverflow(InFee))
        else Ok(Payment(month, opening, interest, payment, principal, extraPrincipal, fee, remaining - extraPrincipal))
  }

  /** One month as a function of the month number, the opening balance and the extra on offer. */
  type MonthRule = (int, int, int) -> Result<Payment, DebtError>

  function RuleOf(t: Terms): MonthRule {
    (month: int, opening: int, extra: int) => SimulateMonth(t, month, opening, extra)
  }

  /** The simulation from `month` on, given the balance and the totals so far; `extras` offers an extra payment a month. */
  function Run(rule: MonthRule, limit: int, month: int, balance: int, extras: int -> int, interestSoFar: int, feesSoFar: int)
    : Result<Simulation, DebtError>
    decreases limit + 1 - month
  {
    if month <= limit && balance > 0 then
      match rule(month, balance, extras(month))
      case Err(e) => Err(e)
      case Ok(p) =>
        if !InInt64(interestSoFar + p.interest) then Err(AmountOverflow(InTotalInterest))
        else if !InInt64(feesSoFar + p.fee) then Err(AmountOverflow(InTotalFees))
        else Prepend(p, Run(rule, limit, month + 1, p.closing, extras, interestSoFar + p.interest, feesSoFar + p.fee))
    else if balance != 0 then Err(NonAmortizing)
    else Ok(Simulation([], interestSoFar, feesSoFar))
  }

  function Prepend(p: Payment, rest: Result<Simulation, DebtError>): Result<Simulation, DebtError> {
    match rest
    case Err(e) => Err(e)
    case Ok(s) => Ok(s.(payments := [p] + s.payments))
  }

  function MonthExtra(extra: int, oneTimeMonth: int): int -> int {
    (month: int) => if oneTimeMonth > 0 && month != oneTimeMonth then 0 else extra
  }

  function InterestRule(debt: Contract): int -> int
    requires debt.apr.Some?
  {
    (minor: int) => MultiplyAndRound(minor, MonthlyRate(debt.apr.value))
  }

  function FeeRule(debt: Contract): int -> int {
    (minor: int) => if debt.feeRate.None? || debt.feeRate.value == 0.0 then 0 else MultiplyAndRound(minor, debt.feeRate.value)
  }

  /** The largest fee one month can charge: the fee on the extra on offer, or on the whole balance if that is less. */
  function FeeCap(debt: Contract, extra: Money): int {
    FeeRule(debt)(Min(extra.minor, debt.balance.minor))
  }

  function BaseTerms(debt: Contract): Terms
    requires debt.apr.Some?
  {
    Terms(debt.repayment, debt.term, 0, 0, 0, debt.restrictedMonths, InterestRule(debt), FeeRule(debt))
  }

  /** Everything fixed before the first month: the level payment or the equal principal, if the rule has one. */
  function TermsOf(debt: Contract): Result<Terms, DebtError>
    requires debt.apr.Some? && debt.apr.value >= 0.0
    requires debt.repayment.Annuity? || debt.repayment.EqualPrincipal? ==> debt.term > 0
  {
    match debt.repayment
    case Annuity =>
      (match ToMinor(ExactAnnuity(debt.balance.minor, debt.term, MonthlyRate(debt.apr.value)), InAnnuity)
       case Err(e) => Err(e)
       case Ok(level) => Ok(BaseTerms(debt).(fixedScheduled := level)))
    case EqualPrincipal =>
      (match ToMinor(debt.balance.minor as real / debt.term as real, InAnnuity)
       case Err(e) => Err(e)
       case Ok(share) => Ok(BaseTerms(debt).(equalPrincipal := share)))
    case Revolving => Ok(BaseTerms(debt).(payment := debt.minimumPayment.minor))
    case Custom => Ok(BaseTerms(debt).(payment := debt.scheduledPayment.minor))
    case UnknownRepayment => Err(InvalidDebt)
  }

  /** What a whole simulation returns: the validation error, nothing for a zero balance, or the run from month 1. */
  function Outcome(debt: Contract, extra: Money, oneTimeMonth: int): Result<Simulation, DebtError> {
    match Validate(debt, extra)
    case Some(e) => Err(e)
    case None =>
      if debt.balance.minor == 0 then Ok(Simulation([], 0, 0))
      else match TermsOf(debt)
        case Err(e) => Err(e)
        case Ok(t) => Run(RuleOf(t), t.Limit(), 1, debt.balance.minor, MonthExtra(extra.minor, oneTimeMonth), 0, 0)
  }

  lemma RulesAreMonotone(debt: Contract, extra: Money)
    requires Validate(debt, extra).None?
    ensures TermsOf(debt).Ok? ==> TermsOf(debt).value.Valid()
  {
    MultiplyAndRoundMonotone(MonthlyRate(debt.apr.value));
    assert RoundsMonotonically(InterestRule(debt)) by {
      var f := (minor: int) => MultiplyAndRound(minor, MonthlyRate(debt.apr.value));
      assert forall m: int :: f(m) == InterestRule(debt)(m);
    }
    var g := FeeRule(debt);
    assert RoundsMonotonically(g) by {
      if debt.feeRate.Some? && debt.feeRate.value != 0.0 {
        MultiplyAndRoundMonotone(debt.feeRate.value);
        var f := (minor: int) => MultiplyAndRound(minor, debt.feeRate.value);
        assert forall m: int :: f(m) == g(m);
      }
    }
    if debt.repayment.EqualPrincipal? {
      assert debt.balance.minor as real / debt.term as real >= 0.0;
    }
  }

  function After(payments: seq<Payment>, rest: Result<Simulation, DebtError>): Result<Simulation, DebtError> {
    match rest
    case Err(e) => Err(e)
    case Ok(s) => Ok(s.(payments := payments + s.payments))
  }

  lemma AfterNothing(rest: Result<Simulation, DebtError>)
    ensures After([], rest) == rest
  {
    if rest.Ok? {
      assert [] + rest.value.payments == rest.value.payments;
    }
  }

  lemma AfterOneMore(payments: seq<Payment>, p: Payment, rest: Result<Simulation, DebtError>)
    ensures After(payments, Prepend(p, rest)) == After(payments + [p], rest)
  {
    if rest.Ok? {
      assert payments + ([p] + rest.value.payments) == (payments + [p]) + rest.value.payments;
    }
  }

  /** The source's loop: the balance, the payment list and the two totals are updated month by month. */
  method RunMonths(rule: MonthRule, limit: int, opening: int, extras: int -> int) returns (r: Result<Simulation, DebtError>)
    ensures r == Run(rule, limit, 1, opening, extras, 0, 0)
  {
    var balance, totalInterest, totalFees := opening, 0, 0;
    var payments: seq<Payment> := [];
    var month := 1;
    AfterNothing(Run(rule, limit, 1, opening, extras, 0, 0));
    while month <= limit && balance > 0
      invariant Run(rule, limit, 1, opening, extras, 0, 0)
                == After(payments, Run(rule, limit, month, balance, extras, totalInterest, totalFees))
      decreases limit + 1 - month
    {
      var step := rule(month, balance, extras(month));
      if step.Err? {
        return Err(step.error);
      }
      var p := step.value;
      if !InInt64(totalInterest + p.interest) {
        return Err(AmountOverflow(InTotalInterest));
      }
      if !InInt64(totalFees + p.fee) {
        return Err(AmountOverflow(InTotalFees));
      }
      AfterOneMore(payments, p, Run(rule, limit, month + 1, p.closing, extras, totalInterest + p.interest, totalFees + p.fee));
      payments, totalInterest, totalFees := payments + [p], totalInterest + p.interest, totalFees + p.fee;
      balance, month := p.closing, month + 1;
    }
    if balance != 0 {
      return Err(NonAmortizing);
    }
    assert payments + [] == payments;
    r := Ok(Simulation(payments, totalInterest, totalFees));
  }

  method SimulateDebt(debt: Contract, extra: Money, oneTimeMonth: int) returns (r: Result<Simulation, DebtError>)
    ensures r == Outcome(debt, extra, oneTimeMonth)
  {
    var complaint := Validate(debt, extra);
    if complaint.Some? {
      return Err(complaint.value);
    }
    if debt.balance.minor == 0 {
      return Ok(Simulation([], 0, 0));
    }
    var t := BaseTerms(debt);
    match debt.repayment {
      case Annuity =>
        var level := AnnuityPaymentMinor(debt.balance.minor, debt.term, MonthlyRate(debt.apr.value));
        if level.Err? {
          return Err(level.error);
        }
        t := t.(fixedScheduled := level.value);
      case EqualPrincipal =>
        var share := ToMinor(debt.balance.minor as real / debt.term as real, InAnnuity);
        if share.Err? {
          return Err(share.error);
        }
        t := t.(equalPrincipal := share.value);
      case Revolving =>
        t := t.(payment := debt.minimumPayment.minor);
      case Custom =>
        t := t.(payment := debt.scheduledPayment.minor);
    }
    r := RunMonths(RuleOf(t), t.Limit(), debt.balance.minor, MonthExtra(extra.minor, oneTimeMonth));
  }
}
