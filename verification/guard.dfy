/** The rate-limit admission guard in front of every check cycle: a cycle
    is admitted only when at least the minimum interval has passed since the
    last admitted one. Times are milliseconds, as `Date.now()` gives them. */
module Guard {

  /** Minimum distance, in milliseconds, between two admitted cycles. */
  const MinimumCheckInterval: int := 10000

  /** The time of the last check before any cycle has run. */
  const InitialLastCheckTime: int := 0

  /** The guard lets a cycle through unless `now - lastCheckTime` is below
      the interval. A clock that went backwards gives a negative distance,
      which is below the interval too. */
  predicate Admits(lastCheckTime: int, now: int) {
    !(now - lastCheckTime < MinimumCheckInterval)
  }
}
