/** `FixedWindowRateLimiter`: windows aligned to absolute ticks; each check
    reads the key's counter, starts a fresh one or counts one more request,
    writes it back and denies when the count exceeds the limit. */
module FixedWindow {
  import opened Basics
  import opened RateLimitCounters
  import opened Policies
  import opened Decisions
  import opened Store

  /** `now.Ticks - now.Ticks % window.Ticks`: the start of the window that
      contains `now`. Ticks are never negative, so C#'s truncating `%`
      agrees with Dafny's. */
  function AlignWindow(now: nat, window: int): (windowStart: int)
    requires window > 0
    ensures windowStart == (now / window) * window
    ensures 0 <= windowStart <= now < windowStart + window
  {
    now - now % window
  }

  /** The counter a check stores: a fresh `{1, windowStart + window}` when
      there is none or its reset time has strictly passed (a check at exactly
      `resetTime` still counts in the old window); otherwise one more request
      with the same reset time. At 2^31 - 1 requests the 32-bit increment
      wraps negative and the counter constructor rejects it. */
  function NextWindowCounter(stored: Option<RateLimitCounter>, now: nat, window: int): (r: Result<RateLimitCounter>)
    requires window > 0
    requires stored.Some? ==> stored.value.Valid()
    ensures stored.None? || stored.value.resetTime < now ==>
              r == Ok(RateLimitCounter(1, AlignWindow(now, window) + window))
    ensures stored.Some? && stored.value.resetTime >= now && stored.value.count < MaxInt32 ==>
              r == Ok(RateLimitCounter(stored.value.count + 1, stored.value.resetTime))
    ensures stored.Some? && stored.value.resetTime >= now && stored.value.count == MaxInt32 ==>
              r == Err(NegativeCount)
    ensures r.Ok? ==> r.value.Valid() && r.value.count >= 1 && r.value.resetTime >= now
  {
    if stored.None? || stored.value.resetTime < now then
      NewCounter(1, AlignWindow(now, window) + window)
    else
      NewCounter(Wrap32(stored.value.count + 1), stored.value.resetTime)
  }

  /** The decision on a stored counter: denied exactly when the count exceeds
      the limit. */
  function Decide(c: RateLimitCounter, now: int, limit: int): (d: RateLimitResult)
    ensures d.Limited? <==> c.count > limit
  {
    if c.count > limit then
      Limited(0, c.resetTime, c.resetTime - now)
    else
      Success(limit - c.count, c.resetTime)
  }

  /** What a check reports: a denial has nothing remaining, resets with the
      window and asks the caller to wait until then, never a negative time;
      an allowance reports `limit - count` remaining, between 0 and
      `limit - 1`. */
  lemma DecisionBounds(stored: Option<RateLimitCounter>, now: nat, policy: RateLimitPolicy)
    requires policy.Valid()
    requires stored.Some? ==> stored.value.Valid()
    requires NextWindowCounter(stored, now, policy.window).Ok?
    ensures var c := NextWindowCounter(stored, now, policy.window).value;
            var d := Decide(c, now, policy.limit);
            && (d.Limited? <==> c.count > policy.limit)
            && (d.Limited? ==> d.remaining == 0 && d.reset == c.resetTime && d.retryAfter == c.resetTime - now >= 0)
            && (d.Success? ==> d.remaining == policy.limit - c.count && 0 <= d.remaining <= policy.limit - 1)
            && d.reset >= now
  {
  }

  /** The stored state after `n` checks of one key at one instant, starting
      from a store without that key. */
  function CallsAt(n: nat, now: nat, window: int): (r: Result<Option<RateLimitCounter>>)
    requires window > 0
    ensures r.Ok? && r.value.Some? ==> r.value.value.Valid()
  {
    if n == 0 then Ok(None)
    else
      match CallsAt(n - 1, now, window)
      case Err(e) => Err(e)
      case Ok(stored) =>
        match NextWindowCounter(stored, now, window)
        case Err(e) => Err(e)
        case Ok(c) => Ok(Some(c))
  }

  /** From an empty store at a fixed instant, the n-th check stores count n
      with the window's end as reset time: it is allowed with `limit - n`
      remaining while n <= limit, and denied after that while the count keeps
      growing. */
  lemma {:induction false} Burst(n: nat, now: nat, policy: RateLimitPolicy)
    requires policy.Valid()
    requires 1 <= n <= MaxInt32
    ensures CallsAt(n, now, policy.window) ==
              Ok(Some(RateLimitCounter(n, AlignWindow(now, policy.window) + policy.window)))
    ensures var c := RateLimitCounter(n, AlignWindow(now, policy.window) + policy.window);
            && (n <= policy.limit ==> Decide(c, now, policy.limit) == Success(policy.limit - n, c.resetTime))
            && (n > policy.limit ==> Decide(c, now, policy.limit) == Limited(0, c.resetTime, c.resetTime - now))
  {
    if n > 1 {
      Burst(n - 1, now, policy);
    }
  }

  /** The 2^31-th check of one key within one window fails: the count has
      reached MaxInt32 and the next increment is rejected. */
  lemma {:induction false} BurstOverflow(now: nat, policy: RateLimitPolicy)
    requires policy.Valid()
    ensures CallsAt(MaxInt32 + 1, now, policy.window) == Err(NegativeCount)
  {
    Burst(MaxInt32, now, policy);
  }

  class FixedWindowRateLimiter {
    const store: InMemoryRateLimitStore
    const policy: RateLimitPolicy

    constructor(store: InMemoryRateLimitStore, policy: RateLimitPolicy)
      requires policy.Valid()
      ensures this.store == store && this.policy == policy
    {
      this.store := store;
      this.policy := policy;
    }

    /** `ShouldLimitAsync` at clock reading `now`: a blank key is rejected
        before the store is touched; otherwise the key's entry becomes
        `NextWindowCounter` of what was stored, every other entry is kept, and
        the decision is `Decide` on the new counter. A failure leaves the
        store as it was. */
    method ShouldLimit(key: string, now: nat, cancelled: bool) returns (r: Result<RateLimitResult>)
      requires store.Valid() && policy.Valid()
      modifies store
      ensures store.Valid()
      ensures IsBlank(key) ==> r == Err(BlankKey) && store.counters == old(store.counters)
      ensures !IsBlank(key) && cancelled ==> r == Err(Cancelled) && store.counters == old(store.counters)
      ensures !IsBlank(key) && !cancelled ==>
                var next := NextWindowCounter(Lookup(old(store.counters), key), now, policy.window);
                && (next.Err? ==> r == Err(next.error) && store.counters == old(store.counters))
                && (next.Ok? ==> r == Ok(Decide(next.value, now, policy.limit))
                                 && store.counters == old(store.counters)[FoldCase(key) := next.value])
    {
      if IsBlank(key) {
        return Err(BlankKey);
      }
      var windowStart := AlignWindow(now, policy.window);
      var got := store.Get(key, cancelled);
      if got.Err? {
        return Err(got.error);
      }
      var stored := got.value;
      var built: Result<RateLimitCounter>;
      if stored.None? || stored.value.resetTime < now {
        built := NewCounter(1, windowStart + policy.window);
      } else {
        built := NewCounter(Wrap32(stored.value.count + 1), stored.value.resetTime);
      }
      if built.Err? {
        return Err(built.error);
      }
      var counter := built.value;
      var written := store.Set(key, counter, cancelled);
      assert written == Pass;  // the token was not signalled at the read either
      if counter.count > policy.limit {
        var retryAfter := counter.resetTime - now;
        r := Ok(Limited(0, counter.resetTime, retryAfter));
      } else {
        r := Ok(Success(policy.limit - counter.count, counter.resetTime));
      }
    }

    /** The limit reported in the `X-RateLimit-Limit` header. */
    function GetLimit(): (limit: int)
      requires policy.Valid()
      ensures limit == policy.limit && 0 < limit
    {
      policy.limit
    }
  }
}
