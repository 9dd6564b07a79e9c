/** Decimal digit strings: their value, the canonical rendering of a number, and padding. */
module Decimals {
  predicate IsDigit(c: char) {
    '0' <= c <= '9'
  }

  predicate AllDigits(s: string) {
    forall i | 0 <= i < |s| :: IsDigit(s[i])
  }

  /** One or more digits. */
  predicate IsNumber(s: string) {
    s != [] && AllDigits(s)
  }

  function Pow10(n: nat): (p: nat)
    ensures p > 0
  {
    if n == 0 then 1 else 10 * Pow10(n - 1)
  }

  function Divide(value: nat, divisor: nat): nat
    requires divisor > 0
  {
    value / divisor
  }

  function Remainder(value: nat, divisor: nat): (rest: nat)
    requires divisor > 0
    ensures rest < divisor
  {
    value % divisor
  }

  lemma DivisionRejoins(value: nat, divisor: nat)
    requires divisor > 0
    ensures Divide(value, divisor) * divisor + Remainder(value, divisor) == value
  {
  }

  /** The whole part of a number of units of which 10^digits make one, and what is left over. */
  function WholeUnits(value: nat, digits: nat): nat {
    Divide(value, Pow10(digits))
  }

  function MinorUnits(value: nat, digits: nat): (rest: nat)
    ensures rest < Pow10(digits)
  {
    Remainder(value, Pow10(digits))
  }

  lemma UnitsRejoin(value: nat, digits: nat)
    ensures WholeUnits(value, digits) * Pow10(digits) + MinorUnits(value, digits) == value
  {
    DivisionRejoins(value, Pow10(digits));
  }

  function Value(s: string): nat
    requires AllDigits(s)
  {
    if s == [] then 0 else 10 * Value(s[..|s| - 1]) + (s[|s| - 1] - '0') as nat
  }

  /** The canonical decimal of a number: no sign, no leading zero. */
  function Render(n: nat): (s: string)
    ensures IsNumber(s)
  {
    if n < 10 then [('0' as int + n) as char] else Render(n / 10) + [('0' as int + n % 10) as char]
  }

  lemma {:induction false} RenderHasValue(n: nat)
    ensures Value(Render(n)) == n
  {
    if n >= 10 {
      RenderHasValue(n / 10);
      assert Render(n)[..|Render(n)| - 1] == Render(n / 10);
    }
  }

  /** Canonical numbers have no superfluous leading zero. */
  lemma {:induction false} RenderHasNoLeadingZero(n: nat)
    ensures |Render(n)| > 1 ==> Render(n)[0] != '0'
  {
    if n >= 10 {
      RenderHasNoLeadingZero(n / 10);
    }
  }

  lemma {:induction false} RenderFits(n: nat, width: nat)
    requires width >= 1 && n < Pow10(width)
    ensures |Render(n)| <= width
  {
    if n >= 10 {
      RenderFits(n / 10, width - 1);
    }
  }

  lemma ShiftProduct(a: nat, b: nat, p: nat)
    ensures 10 * (a * p + b) == a * (10 * p) + 10 * b
  {
  }

  lemma {:induction false} ValueOfConcat(a: string, b: string)
    requires AllDigits(a) && AllDigits(b)
    ensures AllDigits(a + b) && Value(a + b) == Value(a) * Pow10(|b|) + Value(b)
    decreases |b|
  {
    if b == [] {
      assert a + b == a;
    } else {
      var shorter := b[..|b| - 1];
      ValueOfConcat(a, shorter);
      assert (a + b)[..|a + b| - 1] == a + shorter;
      ShiftProduct(Value(a), Value(shorter), Pow10(|shorter|));
    }
  }

  lemma {:induction false} ValueBound(s: string)
    requires AllDigits(s)
    ensures Value(s) < Pow10(|s|)
  {
    if s != [] {
      ValueBound(s[..|s| - 1]);
    }
  }

  lemma {:induction false} Pow10Adds(a: nat, b: nat)
    ensures Pow10(a + b) == Pow10(a) * Pow10(b)
  {
    if a > 0 {
      Pow10Adds(a - 1, b);
      ShiftProduct(0, Pow10(a - 1) * Pow10(b), 0);
    }
  }

  function Zeros(n: nat): (s: string)
    ensures |s| == n && AllDigits(s)
  {
    seq(n, _ => '0')
  }

  lemma {:induction false} ZerosHaveNoValue(n: nat)
    ensures Value(Zeros(n)) == 0
  {
    if n > 0 {
      ZerosHaveNoValue(n - 1);
      assert Zeros(n)[..n - 1] == Zeros(n - 1);
    }
  }

  function PadStart(s: string, width: int): string {
    if |s| >= width then s else Zeros(width - |s|) + s
  }

  function PadEnd(s: string, width: int): string {
    if |s| >= width then s else s + Zeros(width - |s|)
  }

  lemma PadStartKeepsValue(s: string, width: int)
    requires AllDigits(s)
    ensures AllDigits(PadStart(s, width)) && Value(PadStart(s, width)) == Value(s)
    ensures |PadStart(s, width)| == if |s| >= width then |s| else width
  {
    if |s| < width {
      ValueOfConcat(Zeros(width - |s|), s);
      ZerosHaveNoValue(width - |s|);
    }
  }

  lemma PadEndScales(s: string, width: nat)
    requires AllDigits(s) && |s| <= width
    ensures AllDigits(PadEnd(s, width)) && |PadEnd(s, width)| == width
    ensures Value(PadEnd(s, width)) == Value(s) * Pow10(width - |s|)
  {
    if |s| < width {
      ValueOfConcat(s, Zeros(width - |s|));
      ZerosHaveNoValue(width - |s|);
    }
  }

  // ---------- splitting at the decimal point ----------

  function DotAt(s: string): (i: nat)
    ensures i <= |s| && '.' !in s[..i] && (i < |s| ==> s[i] == '.')
  {
    if s == [] || s[0] == '.' then 0
    else
      var i := 1 + DotAt(s[1..]);
      assert s[..i] == [s[0]] + s[1..][..i - 1];
      i
  }

  lemma DotIsUnique(whole: string, rest: string)
    requires AllDigits(whole) && (rest == [] || rest[0] == '.')
    ensures DotAt(whole + rest) == |whole|
  {
    var s, i := whole + rest, DotAt(whole + rest);
    assert forall k | 0 <= k < |whole| :: s[k] == whole[k];
    assert rest != [] ==> s[|whole|] == rest[0];
    assert forall k | 0 <= k < i :: s[..i][k] == s[k];
  }

  function Whole(s: string): string {
    s[..DotAt(s)]
  }

  function Fraction(s: string): string {
    if DotAt(s) == |s| then [] else s[DotAt(s) + 1..]
  }

  /** `whole` or `whole.fraction`. */
  function Joined(whole: string, fraction: string): string {
    if fraction == [] then whole else whole + "." + fraction
  }

  /** A plain decimal: digits, optionally a point and at most `digits` further digits. */
  predicate IsDecimal(s: string, digits: nat) {
    && IsNumber(Whole(s))
    && (DotAt(s) < |s| ==> IsNumber(Fraction(s)) && |Fraction(s)| <= digits)
  }

  lemma JoinedSplits(whole: string, fraction: string)
    requires AllDigits(whole) && AllDigits(fraction)
    ensures Whole(Joined(whole, fraction)) == whole && Fraction(Joined(whole, fraction)) == fraction
    ensures fraction == [] <==> DotAt(Joined(whole, fraction)) == |Joined(whole, fraction)|
  {
    var rest := if fraction == [] then [] else "." + fraction;
    assert Joined(whole, fraction) == whole + rest;
    DotIsUnique(whole, rest);
  }

  lemma SplitJoins(s: string, digits: nat)
    requires IsDecimal(s, digits)
    ensures s == Joined(Whole(s), Fraction(s)) && AllDigits(Fraction(s)) && |Fraction(s)| <= digits
  {
  }
}
