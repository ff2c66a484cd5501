/** `SlidingWindowCounter`: an immutable pair of request counts, for the
    current and the previous window, with the current window's start and
    expiry. `Increment` returns a new counter in both of its branches. */
module SlidingWindowCounters {
  import opened Basics
  import opened Policies

  datatype SlidingWindowCounter = SlidingWindowCounter(
    requestsInCurrentWindow: int,
    requestsInPreviousWindow: int,
    windowStart: int,
    expiresAt: int)
  {
    /** Counts one request at `now`. At or after the end of the current
        window, the counter rolls over into a window that starts at `now`
        itself (not on a tick boundary), carrying the current count into
        the previous one; otherwise only the current count grows, by one,
        with 32-bit wrap-around. */
    function Increment(now: int, policy: RateLimitPolicy): (r: SlidingWindowCounter)
      requires policy.Valid()
      ensures now >= windowStart + policy.window ==>
                r == NewSlidingWindowCounter(1, now, now + policy.window, requestsInCurrentWindow)
      ensures now < windowStart + policy.window ==>
                && r.requestsInCurrentWindow == Wrap32(requestsInCurrentWindow + 1)
                && r.requestsInPreviousWindow == requestsInPreviousWindow
                && r.windowStart == windowStart
                && r.expiresAt == expiresAt
      ensures 0 <= requestsInCurrentWindow < MaxInt32 ==> r.requestsInCurrentWindow >= 1
      ensures IsInt32(requestsInCurrentWindow) && requestsInCurrentWindow < MaxInt32 ==>
                r.requestsInCurrentWindow == 1 || r.requestsInCurrentWindow == requestsInCurrentWindow + 1
    {
      var windowEnd := windowStart + policy.window;
      if now >= windowEnd then
        NewSlidingWindowCounter(1, now, now + policy.window, requestsInCurrentWindow)
      else
        NewSlidingWindowCounter(Wrap32(requestsInCurrentWindow + 1), windowStart, expiresAt, requestsInPreviousWindow)
    }
  }

  /** The constructor: the previous-window count defaults to zero and every
      argument is stored as given. */
  function NewSlidingWindowCounter(
    requestsInCurrent: int,
    windowStart: int,
    expiresAt: int,
    requestsInPrevious: int := 0): (r: SlidingWindowCounter)
    ensures r.requestsInCurrentWindow == requestsInCurrent
    ensures r.requestsInPreviousWindow == requestsInPrevious
    ensures r.windowStart == windowStart && r.expiresAt == expiresAt
  {
    SlidingWindowCounter(requestsInCurrent, requestsInPrevious, windowStart, expiresAt)
  }

  /** Two requests at the same instant after the window has ended: the first
      rolls over, the second lands inside the window the first one opened. */
  lemma RolloverThenInWindow(c: SlidingWindowCounter, now: int, policy: RateLimitPolicy)
    requires policy.Valid()
    requires now >= c.windowStart + policy.window
    ensures var r := c.Increment(now, policy).Increment(now, policy);
            && r.requestsInCurrentWindow == 2
            && r.requestsInPreviousWindow == c.requestsInCurrentWindow
            && r.windowStart == now
            && r.expiresAt == now + policy.window
  {
    var first := c.Increment(now, policy);
    assert first.windowStart == now && first.requestsInCurrentWindow == 1;
  }
}
