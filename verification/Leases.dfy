/** Leases as the storage queries use them. */
module Leases {
  import opened Options

  /** A lease is a duration in nanoseconds, of which the queries use whole seconds. */
  const NANOSECONDS_PER_SECOND := 1_000_000_000

  function LeaseSeconds(lease: int): int
    requires lease > 0
  {
    lease / NANOSECONDS_PER_SECOND
  }

  /** The lease of a claim stamped `claimedAt` has run out; a non-positive lease never does. */
  predicate Expired(claimedAt: Option<int>, lease: int, now: int) {
    lease > 0 && claimedAt.Some? && claimedAt.value <= now - LeaseSeconds(lease)
  }
}
