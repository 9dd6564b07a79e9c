/** Debt contracts, the amounts derived from them before a simulation starts, and their validation. */
module DebtContract {
  import opened Results
  import opened Money
  import opened Rounding

  datatype RepaymentType = Annuity | EqualPrincipal | Revolving | Custom | UnknownRepayment
  datatype RateType = Fixed | LprSpread | OtherVariable | UnknownRate

  datatype OverflowPlace = InAnnuity | InInterest | InPayment | InFee | InTotalInterest | InTotalFees

  datatype DebtError =
    | DebtCurrencyMismatch
    | InvalidDebt
    | AprRequired
    | InvalidStrategy
    | NonAmortizing
    | AmountOverflow(place: OverflowPlace)

  datatype Contract = Contract(
    id: Int64,
    originalPrincipal: Money,
    balance: Money,
    apr: Option<real>,
    rateType: RateType,
    term: int,
    dueDay: int,
    repayment: RepaymentType,
    minimumPayment: Money,
    scheduledPayment: Money,
    feeRate: Option<real>,
    restrictedMonths: int,
    active: bool)

  /** The first complaint of the source's checks, in their order; `None` when the contract may be simulated. */
  function Validate(debt: Contract, extra: Money): Option<DebtError> {
    var currency := debt.balance.currency;
    if currency == "" || debt.originalPrincipal.currency != currency || debt.minimumPayment.currency != currency
       || debt.scheduledPayment.currency != currency || extra.currency != currency then Some(DebtCurrencyMismatch)
    else if debt.balance.minor < 0 || debt.originalPrincipal.minor < 0 || debt.minimumPayment.minor < 0
            || debt.scheduledPayment.minor < 0 || extra.minor < 0 then Some(InvalidDebt)
    else if debt.apr.None? then Some(AprRequired)
    else if debt.apr.value < 0.0 then Some(InvalidDebt)
    else if debt.feeRate.Some? && debt.feeRate.value < 0.0 then Some(InvalidDebt)
    else if debt.restrictedMonths < 0 || debt.dueDay < 1 || debt.dueDay > 31 then Some(InvalidDebt)
    else if debt.rateType.UnknownRate? then Some(InvalidDebt)
    else match debt.repayment
      case Annuity | EqualPrincipal => if debt.term <= 0 then Some(InvalidDebt) else None
      case Revolving => if debt.minimumPayment.minor <= 0 then Some(InvalidDebt) else None
      case Custom => if debt.scheduledPayment.minor <= 0 then Some(InvalidDebt) else None
      case UnknownRepayment => Some(InvalidDebt)
  }

  function MonthlyRate(apr: real): real {
    apr / 12.0
  }

  function Pow(base: real, n: nat): real {
    if n == 0 then 1.0 else base * Pow(base, n - 1)
  }

  lemma {:induction false} PowAtLeastOne(base: real, n: nat)
    requires base >= 1.0
    ensures Pow(base, n) >= 1.0
    ensures n > 0 ==> Pow(base, n) >= base
  {
    if n > 0 {
      PowAtLeastOne(base, n - 1);
      assert base * Pow(base, n - 1) >= base * 1.0 by {
        assert base * (Pow(base, n - 1) - 1.0) >= 0.0;
      }
    }
  }

  function LevelPayment(principal: int, rate: real, factor: real): real
    requires factor > 1.0
  {
    principal as real * rate * factor / (factor - 1.0)
  }

  /** The level payment before rounding: the principal over the months for a zero rate, else P*r*F/(F-1). */
  function ExactAnnuity(principal: int, months: nat, rate: real): real
    requires months > 0 && rate >= 0.0
  {
    if rate == 0.0 then principal as real / months as real
    else
      PowAtLeastOne(1.0 + rate, months);
      LevelPayment(principal, rate, Pow(1.0 + rate, months))
  }

  function ToMinor(x: real, place: OverflowPlace): Result<int, DebtError> {
    if InInt64(HalfUp(x)) then Ok(HalfUp(x)) else Err(AmountOverflow(place))
  }

  /** The compound factor, built by one multiplication a month. */
  method CompoundFactor(base: real, months: nat) returns (factor: real)
    ensures factor == Pow(base, months)
  {
    factor := 1.0;
    for month := 0 to months
      invariant factor == Pow(base, month)
    {
      factor := factor * base;
    }
  }

  method AnnuityPaymentMinor(principal: int, months: nat, rate: real) returns (r: Result<int, DebtError>)
    requires months > 0 && rate >= 0.0
    ensures r == ToMinor(ExactAnnuity(principal, months, rate), InAnnuity)
  {
    if rate == 0.0 {
      return ToMinor(principal as real / months as real, InAnnuity);
    }
    var factor := CompoundFactor(1.0 + rate, months);
    PowAtLeastOne(1.0 + rate, months);
    r := ToMinor(LevelPayment(principal, rate, factor), InAnnuity);
  }
}
