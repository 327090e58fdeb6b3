// Durations and instants are whole nanoseconds.
module Durations {
  const SECOND: nat := 1_000_000_000
}
