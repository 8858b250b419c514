/** Instants and durations are counted in nanoseconds. */
module Durations {
  const SECOND: int := 1_000_000_000
}
