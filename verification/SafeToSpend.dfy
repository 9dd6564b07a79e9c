/** What is left to spend once every reservation has been deducted. */
module SafeToSpend {
  import opened Results
  import opened Money

  datatype SafeInput = SafeInput(
    liquid: Money,
    upcomingMandatory: Money,
    debtCommitments: Money,
    debtAlreadyReserved: bool,
    essentialReserve: Money,
    emergencyGap: Money,
    hardGoals: Money)
  {
    function AppliedDebt(): Money {
      if debtAlreadyReserved then Zero(liquid.currency) else debtCommitments
    }

    function Deductions(): seq<Money> {
      [upcomingMandatory, AppliedDebt(), essentialReserve, emergencyGap, hardGoals]
    }

    predicate OneCurrency() {
      upcomingMandatory.currency == debtCommitments.currency == essentialReserve.currency == emergencyGap.currency
      == hardGoals.currency == liquid.currency
    }
  }

  datatype SafeResult = SafeResult(amount: Money, isDeficit: bool)

  function SumMinor(amounts: seq<Money>): int {
    if amounts == [] then 0 else SumMinor(amounts[..|amounts| - 1]) + amounts[|amounts| - 1].minor
  }

  /** The running balances of the deduction loop that must all fit. */
  ghost predicate AllStepsFit(liquid: Money, deductions: seq<Money>) {
    forall k | 0 <= k <= |deductions| :: InInt64(liquid.minor - SumMinor(deductions[..k]))
  }

  method DeductAll(liquid: Money, deductions: seq<Money>) returns (r: Result<Money, MoneyError>)
    requires forall d | d in deductions :: d.currency == liquid.currency
    ensures if AllStepsFit(liquid, deductions)
            then r.Ok? && r.value.currency == liquid.currency && r.value.minor == liquid.minor - SumMinor(deductions)
            else r == Err(Overflow)
  {
    var amount := liquid;
    for k := 0 to |deductions|
      invariant amount.currency == liquid.currency && amount.minor == liquid.minor - SumMinor(deductions[..k])
      invariant forall j | 0 <= j <= k :: InInt64(liquid.minor - SumMinor(deductions[..j]))
    {
      assert deductions[..k + 1][..k] == deductions[..k];
      var step := Sub(amount, deductions[k]);
      if step.Err? {
        assert !InInt64(liquid.minor - SumMinor(deductions[..k + 1]));
        return Err(step.error);
      }
      amount := step.value;
    }
    assert deductions[..|deductions|] == deductions;
    r := Ok(amount);
  }

  lemma SumOfFive(a: Money, b: Money, c: Money, d: Money, e: Money)
    ensures SumMinor([a, b, c, d, e]) == a.minor + b.minor + c.minor + d.minor + e.minor
  {
    assert [a, b, c, d, e][..4] == [a, b, c, d] && [a, b, c, d][..3] == [a, b, c];
    assert [a, b, c][..2] == [a, b] && [a, b][..1] == [a] && [a][..0] == [];
    assert SumMinor([a]) == a.minor;
    assert SumMinor([a, b]) == SumMinor([a]) + b.minor;
    assert SumMinor([a, b, c]) == a.minor + b.minor + c.minor;
    assert SumMinor([a, b, c, d]) == a.minor + b.minor + c.minor + d.minor;
  }

  /** Debt is deducted unless it is reserved already; every amount must be in the currency of the liquid pool, and the
      running balances must fit in the order of the deductions. */
  method CalculateSafeToSpend(input: SafeInput) returns (r: Result<SafeResult, MoneyError>)
    ensures
      var debt := if input.debtAlreadyReserved then Money(0, input.liquid.currency) else input.debtCommitments;
      var deductions := [input.upcomingMandatory, debt, input.essentialReserve, input.emergencyGap, input.hardGoals];
      if (exists m | m in deductions + [input.debtCommitments] :: m.currency != input.liquid.currency) then r == Err(CurrencyMismatch)
      else if !AllStepsFit(input.liquid, deductions) then r == Err(Overflow)
      else
        && r.Ok? && r.value.amount.currency == input.liquid.currency
        && r.value.amount.minor == input.liquid.minor - input.upcomingMandatory.minor - debt.minor
                                   - input.essentialReserve.minor - input.emergencyGap.minor - input.hardGoals.minor
        && (r.value.isDeficit <==> r.value.amount.minor < 0)
  {
    if !input.OneCurrency() {
      return Err(CurrencyMismatch);
    }
    var amount := DeductAll(input.liquid, input.Deductions());
    SumOfFive(input.upcomingMandatory, input.AppliedDebt(), input.essentialReserve, input.emergencyGap, input.hardGoals);
    if amount.Err? {
      return Err(amount.error);
    }
    r := Ok(SafeResult(amount.value, amount.value.minor < 0));
  }
}
