/** What printing and reading amounts and percentages preserve. */
module MoneyTextProperties {
  import opened Results
  import opened Decimals
  import opened MoneyText

  // ---------- reading ----------

  lemma DecimalIsTrimmed(before: string, s: string, after: string, digits: nat)
    requires AllSpace(before) && AllSpace(after) && IsDecimal(s, digits)
    ensures Trim(before + s + after) == s
  {
    assert s[0] == Whole(s)[0];
    assert IsDigit(s[|s| - 1]) by {
      if DotAt(s) == |s| {
        assert s[|s| - 1] == Whole(s)[|s| - 1];
      } else {
        assert s[|s| - 1] == Fraction(s)[|Fraction(s)| - 1];
      }
    }
    TrimDrops(before, s, after);
  }

  lemma ParseReads(before: string, whole: string, fraction: string, after: string, currency: string)
    requires AllSpace(before) && AllSpace(after) && IsNumber(whole) && AllDigits(fraction)
    requires |fraction| <= DigitsForCurrency(currency)
    ensures ParseMoneyInput(before + Joined(whole, fraction) + after, currency)
            == Some(Render(MinorOf(whole, fraction, DigitsForCurrency(currency))))
  {
    JoinedSplits(whole, fraction);
    DecimalIsTrimmed(before, Joined(whole, fraction), after, DigitsForCurrency(currency));
  }

  lemma MinorOfIsExact(whole: string, fraction: string, digits: nat)
    requires AllDigits(whole) && AllDigits(fraction) && |fraction| <= digits
    ensures MinorOf(whole, fraction, digits) == Value(whole) * Pow10(digits) + Value(fraction) * Pow10(digits - |fraction|)
  {
    PadEndScales(fraction, digits);
  }

  /** Every plain decimal with at most the currency's digits is read exactly, whatever space surrounds it. */
  lemma ParseIsExact(before: string, whole: string, fraction: string, after: string, currency: string)
    requires AllSpace(before) && AllSpace(after) && IsNumber(whole) && AllDigits(fraction)
    requires |fraction| <= DigitsForCurrency(currency)
    ensures var digits := DigitsForCurrency(currency);
            var minor := MinorOf(whole, fraction, digits);
            && ParseMoneyInput(before + Joined(whole, fraction) + after, currency) == Some(Render(minor))
            && minor == Value(whole) * Pow10(digits) + Value(fraction) * Pow10(digits - |fraction|)
  {
    var digits := DigitsForCurrency(currency);
    ParseReads(before, whole, fraction, after, currency);
    MinorOfIsExact(whole, fraction, digits);
  }

  /** Nothing else is accepted: an accepted text is, apart from surrounding space, such a decimal. */
  lemma ParseAcceptsOnlyDecimals(value: string, currency: string)
    ensures ParseMoneyInput(value, currency).Some?
            <==> IsNumber(Whole(Trim(value))) && Trim(value) == Joined(Whole(Trim(value)), Fraction(Trim(value)))
                 && AllDigits(Fraction(Trim(value))) && |Fraction(Trim(value))| <= DigitsForCurrency(currency)
  {
    var s, digits := Trim(value), DigitsForCurrency(currency);
    if IsDecimal(s, digits) {
      SplitJoins(s, digits);
    } else if IsNumber(Whole(s)) && s == Joined(Whole(s), Fraction(s)) && AllDigits(Fraction(s)) && |Fraction(s)| <= digits {
      JoinedSplits(Whole(s), Fraction(s));
      assert false;
    }
  }

  // ---------- round trip ----------

  lemma MinorOfFull(whole: string, fraction: string)
    requires AllDigits(whole) && AllDigits(fraction)
    ensures MinorOf(whole, fraction, |fraction|) == Value(whole) * Pow10(|fraction|) + Value(fraction)
  {
  }

  lemma AmountPieces(value: nat, digits: nat) returns (whole: string, fraction: string)
    ensures IsNumber(whole) && AllDigits(fraction) && |fraction| == digits
    ensures whole == Render(if digits == 0 then value else WholeUnits(value, digits))
    ensures digits > 0 ==> fraction == PadStart(Render(MinorUnits(value, digits)), digits)
    ensures AmountText(value, digits) == Joined(whole, fraction)
  {
    if digits == 0 {
      whole, fraction := Render(value), [];
    } else {
      var major, minor := WholeUnits(value, digits), MinorUnits(value, digits);
      whole, fraction := Render(major), PadStart(Render(minor), digits);
      RenderFits(minor, digits);
      PadStartKeepsValue(Render(minor), digits);
    }
  }

  lemma AmountParts(value: nat, digits: nat) returns (whole: string, fraction: string)
    ensures IsNumber(whole) && AllDigits(fraction) && |fraction| == digits
    ensures AmountText(value, digits) == Joined(whole, fraction)
    ensures MinorOf(whole, fraction, digits) == value
  {
    whole, fraction := AmountPieces(value, digits);
    if digits == 0 {
      RenderHasValue(value);
    } else {
      PadStartKeepsValue(Render(MinorUnits(value, digits)), digits);
      RenderHasValue(MinorUnits(value, digits));
      RenderHasValue(WholeUnits(value, digits));
      UnitsRejoin(value, digits);
    }
    MinorOfFull(whole, fraction);
  }

  lemma AmountReadsBack(value: nat, currency: string)
    ensures ParseMoneyInput(AmountText(value, DigitsForCurrency(currency)), currency) == Some(Render(value))
  {
    var whole, fraction := AmountParts(value, DigitsForCurrency(currency));
    PlainParse(whole, fraction, currency, value);
  }

  lemma PlainParse(whole: string, fraction: string, currency: string, minor: nat)
    requires IsNumber(whole) && AllDigits(fraction) && |fraction| <= DigitsForCurrency(currency)
    requires minor == MinorOf(whole, fraction, DigitsForCurrency(currency))
    ensures ParseMoneyInput(Joined(whole, fraction), currency) == Some(Render(minor))
  {
    assert [] + Joined(whole, fraction) + [] == Joined(whole, fraction);
    ParseReads([], whole, fraction, [], currency);
  }

  /** Editing a stored amount and reading it back gives the canonical decimal of the same minor units. */
  lemma MoneyInputRoundTrip(minor: string, currency: string)
    requires IsNumber(minor)
    ensures MoneyInputFromMinor(minor, currency).Some?
    ensures ParseMoneyInput(MoneyInputFromMinor(minor, currency).value, currency) == Some(Render(Value(minor)))
  {
    AmountReadsBack(Value(minor), currency);
  }

  // ---------- printed amounts ----------

  function Ungroup(s: string): string {
    if s == [] then [] else (if s[0] == ',' then [] else [s[0]]) + Ungroup(s[1..])
  }

  lemma {:induction false} UngroupConcat(a: string, b: string)
    ensures Ungroup(a + b) == Ungroup(a) + Ungroup(b)
  {
    if a == [] {
      assert a + b == b;
    } else {
      assert (a + b)[1..] == a[1..] + b;
      UngroupConcat(a[1..], b);
    }
  }

  lemma {:induction false} UngroupPlain(s: string)
    requires ',' !in s
    ensures Ungroup(s) == s
  {
    if s != [] {
      UngroupPlain(s[1..]);
    }
  }

  lemma {:induction false} GroupingIsRemovable(s: string)
    requires AllDigits(s)
    ensures Ungroup(GroupDigits(s)) == s
  {
    if s != [] {
      GroupingIsRemovable(s[1..]);
      var comma := if |s| > 1 && (|s| - 1) % 3 == 0 then "," else "";
      UngroupConcat([s[0]] + comma, GroupDigits(s[1..]));
      assert Ungroup([s[0]] + comma) == [s[0]] by {
        UngroupConcat([s[0]], comma);
        assert comma == "," ==> comma[1..] == [];
      }
    }
  }

  lemma GroupDigitsStep(s: string)
    requires |s| > 1
    ensures GroupDigits(s) == [s[0]] + (if (|s| - 1) % 3 == 0 then "," else "") + GroupDigits(s[1..])
  {
  }

  lemma FourDigits(s: string)
    requires |s| == 4
    ensures GroupDigits(s) == GroupDigits(s[..1]) + "," + s[1..]
  {
    GroupDigitsStep(s);
    ShortIsPlain(s[1..]);
    ShortIsPlain(s[..1]);
  }

  /** Commas separate the digits in threes counted from the right. */
  lemma {:induction false} GroupsOfThree(s: string)
    requires |s| > 3
    ensures GroupDigits(s) == GroupDigits(s[..|s| - 3]) + "," + s[|s| - 3..]
  {
    if |s| == 4 {
      FourDigits(s);
    } else {
      var tail, head := s[1..], s[..|s| - 3];
      GroupDigitsStep(s);
      GroupsOfThree(tail);
      assert tail[..|tail| - 3] == head[1..] && tail[|tail| - 3..] == s[|s| - 3..];
      GroupDigitsStep(head);
      assert (|s| - 1) % 3 == (|head| - 1) % 3;
    }
  }

  lemma ShortIsPlain(s: string)
    requires |s| <= 3
    ensures GroupDigits(s) == s
  {
    if |s| > 1 {
      GroupDigitsStep(s);
      ShortIsPlain(s[1..]);
    } else if |s| == 1 {
      assert s[1..] == [];
    }
  }

  function Prefix(minor: int, currency: string): string {
    (if minor < 0 then "-" else "") + Mark(currency)
  }

  /** A printed amount carries its sign and mark, and what follows reads back as the amount once the commas are removed. */
  lemma FormatMoneyReadsBack(minor: int, currency: string)
    ensures Prefix(minor, currency) <= FormatMoney(minor, currency)
    ensures var rest := FormatMoney(minor, currency)[|Prefix(minor, currency)|..];
            ParseMoneyInput(Ungroup(rest), currency) == Some(Render(if minor < 0 then -minor else minor))
  {
    var absolute: nat, digits := if minor < 0 then -minor else minor, DigitsForCurrency(currency);
    var prefix, rest := Prefix(minor, currency), FormatMoney(minor, currency)[|Prefix(minor, currency)|..];
    var body := GroupedAmount(absolute, digits);
    assert FormatMoney(minor, currency) == prefix + body && rest == body by {
      FormatMoneyBody(minor, currency);
    }
    GroupedAmountUngroups(absolute, digits);
    AmountReadsBack(absolute, currency);
  }

  function GroupedAmount(value: nat, digits: nat): string {
    GroupDigits(Render(WholeUnits(value, digits)))
    + (if digits == 0 then "" else "." + PadStart(Render(MinorUnits(value, digits)), digits))
  }

  lemma FormatMoneyBody(minor: int, currency: string)
    ensures FormatMoney(minor, currency)
            == Prefix(minor, currency) + GroupedAmount(if minor < 0 then -minor else minor, DigitsForCurrency(currency))
  {
  }

  lemma WholeUnitsOfPlain(value: nat)
    ensures WholeUnits(value, 0) == value
  {
    assert Pow10(0) == 1;
  }

  lemma GroupedAmountUngroups(value: nat, digits: nat)
    ensures Ungroup(GroupedAmount(value, digits)) == AmountText(value, digits)
  {
    var whole, fraction := AmountPieces(value, digits);
    var point := if digits == 0 then "" else "." + fraction;
    if digits == 0 {
      WholeUnitsOfPlain(value);
    }
    assert GroupedAmount(value, digits) == GroupDigits(whole) + point && AmountText(value, digits) == whole + point;
    UngroupAround(whole, point);
  }

  lemma UngroupAround(whole: string, point: string)
    requires AllDigits(whole) && ',' !in point
    ensures Ungroup(GroupDigits(whole) + point) == whole + point
  {
    UngroupConcat(GroupDigits(whole), point);
    GroupingIsRemovable(whole);
    UngroupPlain(point);
  }

  // ---------- percentages ----------

  /** `scaled` is the quotient of the two numbers rounded to the nearest integer, halves upwards. */
  predicate RoundsHalfUp(scaled: nat, numerator: nat, divisor: nat) {
    2 * (scaled * divisor) - divisor <= 2 * numerator < 2 * (scaled * divisor) + divisor
  }

  lemma DivisionRounds(numerator: nat, divisor: nat)
    requires divisor > 0
    ensures RoundsHalfUp(DivideHalfUp(numerator, divisor), numerator, divisor)
  {
    var q, r := numerator / divisor, numerator % divisor;
    assert numerator == q * divisor + r;
    assert (q + 1) * divisor == q * divisor + divisor;
  }

  lemma RoundingScales(scaled: nat, numerator: nat, divisor: nat, factor: nat)
    requires factor > 0 && RoundsHalfUp(scaled, numerator, divisor)
    ensures RoundsHalfUp(scaled, numerator * factor, divisor * factor)
  {
    assert scaled * (divisor * factor) == (scaled * divisor) * factor;
    BoundsScale(scaled * divisor, numerator, divisor, factor);
  }

  lemma BoundsScale(x: nat, numerator: nat, divisor: nat, factor: nat)
    requires factor > 0 && 2 * x - divisor <= 2 * numerator < 2 * x + divisor
    ensures 2 * (x * factor) - divisor * factor <= 2 * (numerator * factor) < 2 * (x * factor) + divisor * factor
  {
    var low, high := 2 * numerator - (2 * x - divisor), 2 * x + divisor - 2 * numerator;
    Distribute(numerator, x, divisor, factor);
    ProductSigns(low, high, factor);
  }

  lemma ProductSigns(low: int, high: int, factor: int)
    requires low >= 0 && high > 0 && factor > 0
    ensures low * factor >= 0 && high * factor > 0
  {
  }

  lemma Distribute(numerator: nat, x: nat, divisor: nat, factor: nat)
    ensures (2 * numerator - (2 * x - divisor)) * factor == 2 * (numerator * factor) - 2 * (x * factor) + divisor * factor
    ensures (2 * x + divisor - 2 * numerator) * factor == 2 * (x * factor) + divisor * factor - 2 * (numerator * factor)
  {
  }

  lemma ExactRounds(numerator: nat, factor: nat, divisor: nat)
    requires divisor > 0
    ensures RoundsHalfUp(numerator * factor, numerator * (factor * divisor), divisor)
  {
    assert (numerator * factor) * divisor == numerator * (factor * divisor);
  }

  /** Both directions of the shift round the same quotient: value times 10^(2 + digits) over 10^|fraction|. */
  lemma ScaledPercentRounds(whole: string, fraction: string, digits: nat)
    requires AllDigits(whole) && AllDigits(fraction)
    ensures RoundsHalfUp(ScaledPercent(whole, fraction, digits), Value(whole + fraction) * Pow10(2 + digits), Pow10(|fraction|))
  {
    var numerator, shift := Value(whole + fraction), 2 + digits - |fraction|;
    if shift >= 0 {
      Pow10Adds(shift, |fraction|);
      ExactRounds(numerator, Pow10(shift), Pow10(|fraction|));
    } else {
      DivisionRounds(numerator, Pow10(-shift));
      RoundingScales(ScaledPercent(whole, fraction, digits), numerator, Pow10(-shift), Pow10(2 + digits));
      Pow10Adds(-shift, 2 + digits);
    }
  }

  lemma SplitDigits(s: string, last: nat)
    requires AllDigits(s) && last < |s|
    ensures var number := PointBefore(s, last);
            && IsDecimal(number, last) && |Fraction(number)| == last && Whole(number) + Fraction(number) == s
  {
    var whole, fraction := s[..|s| - last], s[|s| - last..];
    assert whole + fraction == s;
    JoinedSplits(whole, fraction);
    assert PointBefore(s, last) == Joined(whole, fraction);
  }

  predicate Printable(ratio: Option<string>, fractionDigits: int) {
    ratio.Some? && ratio.value != "" && 0 <= fractionDigits <= 6 && IsRatio(Trim(ratio.value))
  }

  /** What a printed percentage says: its digits, with all the requested places and no superfluous leading zero. */
  predicate Shows(number: string, scaled: nat, places: nat) {
    && IsDecimal(number, places) && |Fraction(number)| == places
    && (|Whole(number)| > 1 ==> Whole(number)[0] != '0')
    && AllDigits(Whole(number) + Fraction(number)) && Value(Whole(number) + Fraction(number)) == scaled
  }

  lemma PaddedDigits(scaled: nat, places: nat)
    ensures var digits := PadStart(Render(scaled), places + 1);
            && AllDigits(digits) && |digits| > places && Value(digits) == scaled
            && (|digits| > places + 1 ==> digits[0] != '0')
  {
    PadStartKeepsValue(Render(scaled), places + 1);
    RenderHasValue(scaled);
    RenderHasNoLeadingZero(scaled);
  }

  lemma PointBeforeShows(digits: string, places: nat)
    requires AllDigits(digits) && |digits| > places && (|digits| > places + 1 ==> digits[0] != '0')
    ensures Shows(PointBefore(digits, places), Value(digits), places)
  {
    SplitDigits(digits, places);
    var number := PointBefore(digits, places);
    var whole := Whole(number);
    assert |whole| == |digits| - places && whole[0] == (whole + Fraction(number))[0];
  }

  /** The ratio times 100 shifted by the printed places is this number over 10 to the number of fraction digits. */
  function PercentNumerator(unsigned: string, places: nat): nat
    requires IsDecimal(unsigned, |unsigned|)
  {
    Value(Whole(unsigned) + Fraction(unsigned)) * Pow10(2 + places)
  }

  /**
    A printable ratio times 100 is rounded half away from zero to the requested places, all of which are printed; zero never
    carries a minus sign. Anything else prints as a dash.
   */
  lemma FormatPercentIsRounded(ratio: Option<string>, fractionDigits: int) returns (number: string, scaled: nat)
    ensures !Printable(ratio, fractionDigits) ==> FormatPercent(ratio, fractionDigits) == DASH
    ensures Printable(ratio, fractionDigits) ==>
              var normalized := Trim(ratio.value);
              var unsigned := Unsigned(normalized);
              && IsRatio(normalized) && IsDecimal(unsigned, |unsigned|)
              && FormatPercent(ratio, fractionDigits) == (if Negative(normalized) && scaled != 0 then "-" else "") + number + "%"
              && Shows(number, scaled, fractionDigits)
              && RoundsHalfUp(scaled, PercentNumerator(unsigned, fractionDigits), Pow10(|Fraction(unsigned)|))
  {
    number, scaled := "", 0;
    if Printable(ratio, fractionDigits) {
      var unsigned := Unsigned(Trim(ratio.value));
      number, scaled := RoundedPercent(unsigned, fractionDigits);
    }
  }

  lemma RoundedPercent(unsigned: string, places: nat) returns (number: string, scaled: nat)
    requires IsDecimal(unsigned, |unsigned|)
    ensures scaled == ScaledPercent(Whole(unsigned), Fraction(unsigned), places)
    ensures number == PointBefore(PadStart(Render(scaled), places + 1), places)
    ensures Shows(number, scaled, places)
    ensures RoundsHalfUp(scaled, PercentNumerator(unsigned, places), Pow10(|Fraction(unsigned)|))
  {
    scaled := ScaledPercent(Whole(unsigned), Fraction(unsigned), places);
    number := PointBefore(PadStart(Render(scaled), places + 1), places);
    ScaledPercentRounds(Whole(unsigned), Fraction(unsigned), places);
    PaddedDigits(scaled, places);
    PointBeforeShows(PadStart(Render(scaled), places + 1), places);
  }

  /** A signed decimal with space around it. */
  function RatioText(before: string, negative: bool, whole: string, fraction: string, after: string): string {
    before + ((if negative then "-" else "") + Joined(whole, fraction)) + after
  }

  lemma RatioParts(before: string, negative: bool, whole: string, fraction: string, after: string)
    requires AllSpace(before) && AllSpace(after) && IsNumber(whole) && AllDigits(fraction)
    ensures var ratio := Trim(RatioText(before, negative, whole, fraction, after));
      Negative(ratio) == negative && Unsigned(ratio) == Joined(whole, fraction)
  {
    var s, ratio := Joined(whole, fraction), (if negative then "-" else "") + Joined(whole, fraction);
    JoinedSplits(whole, fraction);
    assert s[0] == whole[0] && IsDigit(s[|s| - 1]) && ratio[|ratio| - 1] == s[|s| - 1];
    TrimDrops(before, ratio, after);
  }

  /** The number of these digits, times 100, rounded half up to the places. */
  predicate PercentOf(scaled: nat, whole: string, fraction: string, places: nat)
    requires AllDigits(whole) && AllDigits(fraction)
  {
    RoundsHalfUp(scaled, Value(whole + fraction) * Pow10(2 + places), Pow10(|fraction|))
  }

  /** The printed percentage of a signed decimal, whatever space surrounds it. */
  lemma FormatPercentReads(before: string, negative: bool, whole: string, fraction: string, after: string, places: nat)
      returns (number: string, scaled: nat)
    requires AllSpace(before) && AllSpace(after) && IsNumber(whole) && AllDigits(fraction) && places <= 6
    ensures FormatPercent(Some(RatioText(before, negative, whole, fraction, after)), places)
            == (if negative && scaled != 0 then "-" else "") + number + "%"
    ensures Shows(number, scaled, places) && PercentOf(scaled, whole, fraction, places)
  {
    RatioParts(before, negative, whole, fraction, after);
    JoinedSplits(whole, fraction);
    number, scaled := FormatPercentIsRounded(Some(RatioText(before, negative, whole, fraction, after)), places);
  }

  lemma SignedSplits(s: string)
    requires IsRatio(s)
    ensures AllDigits(Fraction(Unsigned(s))) && s == (if Negative(s) then "-" else "") + Joined(Whole(Unsigned(s)), Fraction(Unsigned(s)))
  {
    SplitJoins(Unsigned(s), |s|);
    if Negative(s) {
      assert s == "-" + s[1..];
    }
  }

  /** Whatever else is given prints as a dash. */
  lemma OnlySignedDecimalsPrint(ratio: Option<string>, fractionDigits: int) returns (negative: bool, whole: string, fraction: string)
    ensures FormatPercent(ratio, fractionDigits) != DASH ==>
              && ratio.Some? && 0 <= fractionDigits <= 6 && IsNumber(whole) && AllDigits(fraction)
              && Trim(ratio.value) == (if negative then "-" else "") + Joined(whole, fraction)
  {
    negative, whole, fraction := false, "", "";
    if Printable(ratio, fractionDigits) {
      var s := Trim(ratio.value);
      SignedSplits(s);
      negative, whole, fraction := Negative(s), Whole(Unsigned(s)), Fraction(Unsigned(s));
    }
  }
}
