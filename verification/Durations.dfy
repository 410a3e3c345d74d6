/** Durations and times are integer nanoseconds. */
module Durations {
  const MILLISECOND := 1_000_000
  const SECOND := 1_000_000_000

  function Seconds(d: int): (s: real)
    ensures s * SECOND as real == d as real
  {
    d as real / 1000000000.0
  }
}
