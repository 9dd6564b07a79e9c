/** Half-up rounding of exact non-negative amounts to whole minor units. */
module Rounding {
  function HalfUp(x: real): int {
    (x + 0.5).Floor
  }

  /** `minor * rate` rounded to minor units, before the 64-bit range check. */
  function MultiplyAndRound(minor: int, rate: real): int {
    HalfUp(minor as real * rate)
  }

  /** What the relational proofs need of "amount -> rounded share of it". */
  ghost predicate RoundsMonotonically(f: int -> int) {
    f(0) == 0 && forall a: int, b: int :: 0 <= a <= b ==> f(a) <= f(b)
  }

  lemma HalfUpIsNearest(x: real)
    ensures HalfUp(x) as real - x <= 0.5
    ensures x - HalfUp(x) as real < 0.5
  {
  }

  lemma HalfUpMonotone(x: real, y: real)
    requires x <= y
    ensures HalfUp(x) <= HalfUp(y)
  {
  }

  lemma HalfUpShift(x: real, n: int)
    ensures HalfUp(x + n as real) == HalfUp(x) + n
  {
  }

  lemma ScaleMonotone(a: int, b: int, rate: real)
    requires a <= b && rate >= 0.0
    ensures a as real * rate <= b as real * rate
  {
    assert (b - a) as real * rate >= 0.0;
  }

  /** A rounded share of an amount grows with the amount and is zero for zero, also when a first
      monotone rounding `stage` (a bounded-precision intermediate product, say) precedes the half-up one. */
  lemma TwoStageRoundsMonotonically(stage: real -> real, rate: real)
    requires rate >= 0.0
    requires stage(0.0) == 0.0 && forall x: real, y: real :: x <= y ==> stage(x) <= stage(y)
    ensures RoundsMonotonically((minor: int) => HalfUp(stage(minor as real * rate)))
  {
    var f := (minor: int) => HalfUp(stage(minor as real * rate));
    forall a: int, b: int | 0 <= a <= b
      ensures f(a) <= f(b)
    {
      ScaleMonotone(a, b, rate);
      HalfUpMonotone(stage(a as real * rate), stage(b as real * rate));
    }
  }

  lemma MultiplyAndRoundMonotone(rate: real)
    requires rate >= 0.0
    ensures RoundsMonotonically((minor: int) => MultiplyAndRound(minor, rate))
  {
    var f := (minor: int) => MultiplyAndRound(minor, rate);
    forall a: int, b: int | 0 <= a <= b
      ensures f(a) <= f(b)
    {
      ScaleMonotone(a, b, rate);
    }
  }
}
