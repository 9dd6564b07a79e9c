/** Reading and printing amounts and percentages as decimal strings. */
module MoneyText {
  import opened Results
  import opened Decimals

  const DASH := "\U{2014}"

  // ---------- currencies ----------

  function Upper(s: string): string {
    seq(|s|, i requires 0 <= i < |s| => if 'a' <= s[i] <= 'z' then s[i] - 'a' + 'A' else s[i])
  }

  /** The scale of a currency; unknown codes have two digits. */
  function DigitsForCurrency(currency: string): (digits: nat)
    ensures digits <= 3
  {
    var code := Upper(Trim(currency));
    if code == "JPY" || code == "KRW" then 0
    else if code == "KWD" || code == "BHD" then 3
    else 2
  }

  function Mark(currency: string): string {
    if currency == "CNY" || currency == "JPY" then "\U{00A5}"
    else if currency == "USD" then "$"
    else if currency == "EUR" then "\U{20AC}"
    else if currency == "GBP" then "\U{00A3}"
    else if currency == "HKD" then "HK$"
    else if currency == "KRW" then "\U{20A9}"
    else currency + " "
  }

  // ---------- trimming ----------

  /** White space and line ends as the trim of ECMAScript strings sees them. */
  predicate IsSpace(c: char) {
    || '\U{0009}' <= c <= '\U{000D}' || c == ' ' || c == '\U{00A0}' || c == '\U{1680}' || '\U{2000}' <= c <= '\U{200A}'
    || c == '\U{2028}' || c == '\U{2029}' || c == '\U{202F}' || c == '\U{205F}' || c == '\U{3000}' || c == '\U{FEFF}'
  }

  predicate AllSpace(s: string) {
    forall i | 0 <= i < |s| :: IsSpace(s[i])
  }

  function TrimLeft(s: string): string {
    if s != [] && IsSpace(s[0]) then TrimLeft(s[1..]) else s
  }

  function TrimRight(s: string): string {
    if s != [] && IsSpace(s[|s| - 1]) then TrimRight(s[..|s| - 1]) else s
  }

  function Trim(s: string): string {
    TrimRight(TrimLeft(s))
  }

  lemma {:induction false} TrimLeftDrops(before: string, s: string)
    requires AllSpace(before) && (s == [] || !IsSpace(s[0]))
    ensures TrimLeft(before + s) == s
  {
    if before == [] {
      assert before + s == s;
    } else {
      assert (before + s)[1..] == before[1..] + s;
      TrimLeftDrops(before[1..], s);
    }
  }

  lemma {:induction false} TrimRightDrops(s: string, after: string)
    requires AllSpace(after) && (s == [] || !IsSpace(s[|s| - 1]))
    ensures TrimRight(s + after) == s
  {
    if after == [] {
      assert s + after == s;
    } else {
      assert (s + after)[..|s + after| - 1] == s + after[..|after| - 1];
      TrimRightDrops(s, after[..|after| - 1]);
    }
  }

  lemma TrimDrops(before: string, s: string, after: string)
    requires AllSpace(before) && AllSpace(after) && s != [] && !IsSpace(s[0]) && !IsSpace(s[|s| - 1])
    ensures Trim(before + s + after) == s
  {
    assert before + s + after == before + (s + after);
    TrimLeftDrops(before, s + after);
    TrimRightDrops(s, after);
  }

  // ---------- amounts ----------

  /** Minor units of a whole part and at most `digits` fraction digits, the missing ones being zeros. */
  function MinorOf(whole: string, fraction: string, digits: nat): nat
    requires AllDigits(whole) && AllDigits(fraction)
  {
    var padded := PadEnd(fraction, digits);
    Value(whole) * Pow10(digits) + (if padded == [] then 0 else Value(padded))
  }

  /** The minor units of a typed amount, or nothing if it is not a plain decimal with at most the currency's digits. */
  function ParseMoneyInput(value: string, currency: string): Option<string> {
    var digits, normalized := DigitsForCurrency(currency), Trim(value);
    if !IsDecimal(normalized, digits) then None else Some(Render(MinorOf(Whole(normalized), Fraction(normalized), digits)))
  }

  /** An amount with all its digits after the point, if its currency has any. */
  function AmountText(value: nat, digits: nat): string {
    if digits == 0 then Render(value)
    else Render(WholeUnits(value, digits)) + "." + PadStart(Render(MinorUnits(value, digits)), digits)
  }

  /** A stored amount as text to edit; anything but digits is rejected. */
  function MoneyInputFromMinor(minor: string, currency: string): Option<string> {
    if !IsNumber(minor) then None else Some(AmountText(Value(minor), DigitsForCurrency(currency)))
  }

  /** A comma between two digits wherever the digits that follow come in threes. */
  function GroupDigits(s: string): string {
    if s == [] then []
    else [s[0]] + (if |s| > 1 && (|s| - 1) % 3 == 0 then "," else "") + GroupDigits(s[1..])
  }

  function FormatMoney(minor: int, currency: string): string {
    var digits := DigitsForCurrency(currency);
    var absolute: nat := if minor < 0 then -minor else minor;
    var fractionText := if digits == 0 then "" else "." + PadStart(Render(MinorUnits(absolute, digits)), digits);
    (if minor < 0 then "-" else "") + Mark(currency) + GroupDigits(Render(WholeUnits(absolute, digits))) + fractionText
  }

  // ---------- percentages ----------

  function DivideHalfUp(numerator: nat, divisor: nat): nat
    requires divisor > 0
  {
    var quotient, remainder := numerator / divisor, numerator % divisor;
    if remainder * 2 >= divisor then quotient + 1 else quotient
  }

  /** The ratio as hundredths of a percent digit: shifted by two plus the printed digits, rounded half up on the way down. */
  function ScaledPercent(whole: string, fraction: string, fractionDigits: nat): nat
    requires AllDigits(whole) && AllDigits(fraction)
  {
    var numerator := Value(whole + fraction);
    var shift := 2 + fractionDigits - |fraction|;
    if shift >= 0 then numerator * Pow10(shift)
    else DivideHalfUp(numerator, Pow10(-shift))
  }

  predicate Negative(normalized: string) {
    normalized != [] && normalized[0] == '-'
  }

  function Unsigned(normalized: string): string {
    if Negative(normalized) then normalized[1..] else normalized
  }

  /** An optional minus sign and a decimal with any number of fraction digits. */
  predicate IsRatio(normalized: string) {
    IsDecimal(Unsigned(normalized), |normalized|)
  }

  /** `digits` with a point before the last `places` of them. */
  function PointBefore(digits: string, places: nat): string {
    if places == 0 || |digits| < places then digits else digits[..|digits| - places] + "." + digits[|digits| - places..]
  }

  function PercentText(negative: bool, scaled: nat, places: nat): string {
    (if negative && scaled != 0 then "-" else "") + PointBefore(PadStart(Render(scaled), places + 1), places) + "%"
  }

  function FormatPercent(ratio: Option<string>, fractionDigits: int): string {
    if ratio.None? || ratio.value == "" || fractionDigits < 0 || fractionDigits > 6 || !IsRatio(Trim(ratio.value)) then DASH
    else
      var normalized := Trim(ratio.value);
      var unsigned := Unsigned(normalized);
      PercentText(Negative(normalized), ScaledPercent(Whole(unsigned), Fraction(unsigned), fractionDigits), fractionDigits)
  }
}
