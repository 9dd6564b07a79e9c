/** Durations in nanoseconds. */
module Durations {
  const MINUTE := 60_000_000_000
  const HOUR := 3_600_000_000_000
  const DAY := 86_400_000_000_000
}
