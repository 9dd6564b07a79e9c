/** Integer money: 64-bit minor units tagged with a currency, added and subtracted with overflow checks. */
module Money {
  import opened Results

  const MAX_INT64: int := 0x7fff_ffff_ffff_ffff
  const MIN_INT64: int := -0x8000_0000_0000_0000

  predicate InInt64(x: int) {
    MIN_INT64 <= x <= MAX_INT64
  }

  type Int64 = x: int | InInt64(x)

  datatype Money = Money(minor: Int64, currency: string)

  datatype MoneyError = CurrencyMismatch | Overflow

  function Zero(currency: string): Money {
    Money(0, currency)
  }

  /** The guards are the source's own comparisons, which never leave the 64-bit range themselves. */
  function Add(m: Money, other: Money): (r: Result<Money, MoneyError>)
    ensures m.currency != other.currency <==> r == Err(CurrencyMismatch)
    ensures r == Err(Overflow) <==> m.currency == other.currency && !InInt64(m.minor + other.minor)
    ensures r.Ok? ==> r.value == Money(m.minor + other.minor, m.currency)
  {
    if m.currency != other.currency then Err(CurrencyMismatch)
    else if (other.minor > 0 && m.minor > MAX_INT64 - other.minor) ||
            (other.minor < 0 && m.minor < MIN_INT64 - other.minor) then Err(Overflow)
    else Ok(Money(m.minor + other.minor, m.currency))
  }

  function Sub(m: Money, other: Money): (r: Result<Money, MoneyError>)
    ensures m.currency != other.currency <==> r == Err(CurrencyMismatch)
    ensures r == Err(Overflow) <==> m.currency == other.currency && !InInt64(m.minor - other.minor)
    ensures r.Ok? ==> r.value == Money(m.minor - other.minor, m.currency)
  {
    if m.currency != other.currency then Err(CurrencyMismatch)
    else if (other.minor > 0 && m.minor < MIN_INT64 + other.minor) ||
            (other.minor < 0 && m.minor > MAX_INT64 + other.minor) then Err(Overflow)
    else Ok(Money(m.minor - other.minor, m.currency))
  }

  /** Subtraction undoes addition, whatever the amounts: no successful Add loses information. */
  lemma SubUndoesAdd(m: Money, other: Money)
    ensures Add(m, other).Ok? ==> Sub(Add(m, other).value, other) == Ok(m)
    ensures Sub(m, other).Ok? ==> Add(Sub(m, other).value, other) == Ok(m)
  {
  }
}
