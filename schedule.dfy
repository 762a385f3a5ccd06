/**
 * The delay rule of `scheduleNextRepositoryUpdate`. The current time and
 * the value of `Math.random()` are parameters; the timer itself is
 * represented only by the delay it is armed with.
 */
module Schedule {
  import opened Wrappers
  import opened Runs

  /** Delay for a repository whose latest run is still queued or running: one minute. */
  const IN_PROGRESS_DELAY: real := 60.0 * 1000.0
  /** Delay for a repository whose latest run changed within the last day: five minutes. */
  const RECENT_DELAY: real := 5.0 * 60.0 * 1000.0
  /** How recent a run update must be for the five-minute cadence: 24 hours. */
  const RECENT_WINDOW: int := 24 * 60 * 60 * 1000
  /** Bounds of the roughly hourly delay of an idle repository. */
  const IDLE_MIN: real := 3240000.0
  const IDLE_MAX: real := 3600000.0

  predicate InProgressStatus(status: Option<RunStatus>) {
    status.Some? && status.value.status == InProgress
  }

  predicate RecentlyUpdated(status: Option<RunStatus>, now: int) {
    status.Some? && status.value.runUpdatedDate.Some? && now - status.value.runUpdatedDate.value < RECENT_WINDOW
  }

  /**
   * The timeout the next update is armed with, in milliseconds. The four
   * rules apply in order, the first that matches wins; for a `jitter` in
   * the range of `Math.random()` each delay value occurs exactly under its
   * own rule.
   */
  function PollDelay(lastUpdatedDate: Option<int>, status: Option<RunStatus>, now: int, jitter: real): (d: real)
    ensures lastUpdatedDate.None? ==> d == 0.0
    ensures lastUpdatedDate.Some? && InProgressStatus(status) ==> d == IN_PROGRESS_DELAY
    ensures lastUpdatedDate.Some? && !InProgressStatus(status) && RecentlyUpdated(status, now) ==> d == RECENT_DELAY
    ensures lastUpdatedDate.Some? && !InProgressStatus(status) && !RecentlyUpdated(status, now) ==>
      d == IDLE_MIN + 360000.0 * jitter
    ensures 0.0 <= jitter < 1.0 ==>
      && (d == 0.0 <==> lastUpdatedDate.None?)
      && (d == IN_PROGRESS_DELAY <==> lastUpdatedDate.Some? && InProgressStatus(status))
      && (d == RECENT_DELAY <==> lastUpdatedDate.Some? && !InProgressStatus(status) && RecentlyUpdated(status, now))
      && (IDLE_MIN <= d < IDLE_MAX <==>
            lastUpdatedDate.Some? && !InProgressStatus(status) && !RecentlyUpdated(status, now))
  {
    var timeout := 60.0 * 60.0 * 1000.0 * (0.9 + jitter * 0.1);
    if lastUpdatedDate.None? then 0.0
    else if InProgressStatus(status) then IN_PROGRESS_DELAY
    else if RecentlyUpdated(status, now) then RECENT_DELAY
    else timeout
  }

  /** JavaScript's conversion of a time value to a whole number of milliseconds: toward zero. */
  function Truncate(x: real): int {
    if x >= 0.0 then x.Floor else -((-x).Floor)
  }

  /**
   * `nextUpdateDate = new Date(Date.now() + timeout)`: the firing time, with
   * the fractional milliseconds of the delay dropped.
   */
  function NextUpdateDate(now: int, delay: real): (at: int)
    ensures now >= 0 && delay >= 0.0 ==>
      now as real <= at as real <= now as real + delay < at as real + 1.0
    ensures delay == delay.Floor as real ==> at == now + delay.Floor
    ensures delay == 0.0 ==> at == now
  {
    Truncate(now as real + delay)
  }
}
