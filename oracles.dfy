/**
 * The two foreign libraries the schedulers call, as parameters: the md5 digest
 * read as an integer, and croniter's "next boundary strictly after t" (None when
 * croniter rejects the expression). Timestamps are integer seconds.
 */
module Oracles {
  import opened Wrappers

  type Digest = string -> nat

  type CronNext = (string, int) -> Option<int>

  /** The one property of croniter relied on: the next boundary lies strictly after its start. */
  ghost predicate Advancing(next: CronNext) {
    forall expr, t :: next(expr, t).Some? ==> t < next(expr, t).value
  }

  const Minute: int := 60
  const Day: int := 86400
}
