/** Order on whole numbers. */
module Integers {
  function Min(a: int, b: int): int {
    if a < b then a else b
  }

  function Max(a: int, b: int): int {
    if a < b then b else a
  }

  /** The positive part. */
  function Positive(x: int): int {
    if x < 0 then 0 else x
  }
}
