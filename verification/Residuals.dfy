/** What is left of a commitment after what already covers it. */
module Residuals {
  import opened Results
  import opened Integers
  import opened Money

  function ResidualCommitment(total: Money, reserved: Money): (r: Result<Money, MoneyError>)
    ensures
      if total.currency != reserved.currency then r == Err(CurrencyMismatch)
      else if !InInt64(total.minor - reserved.minor) then r == Err(Overflow)
      else r == Ok(Money(Positive(total.minor - reserved.minor), total.currency))
  {
    match Sub(total, reserved)
    case Err(e) => Err(e)
    case Ok(left) => Ok(left.(minor := Positive(left.minor)))
  }
}
