/** `TokenBucketRateLimiter`: a per-key bucket of `capacity = limit` tokens
    refilled at `limit / window` tokens per tick. The store keeps the token
    count in the counter's count and the time of the last check in its reset
    time. */
module TokenBucket {
  import opened Basics
  import opened RateLimitCounters
  import opened Policies
  import opened Decisions
  import opened Store

  /** `(int)(elapsedSeconds * tokensPerSecond)`: the tokens earned in
      `elapsed` ticks, truncated toward zero. */
  function RefillAmount(elapsed: int, policy: RateLimitPolicy): (refill: int)
    requires policy.Valid()
    ensures elapsed >= 0 ==> refill == elapsed * policy.limit / policy.window && refill >= 0
    ensures refill > 0 <==> elapsed * policy.limit >= policy.window
  {
    NonNegativeProduct(elapsed, policy.limit);
    TruncDiv(elapsed * policy.limit, policy.window)
  }

  /** `(capacity - tokens) / tokensPerSecond` in whole ticks: the time the
      bucket needs to fill up again. */
  function TicksToFull(missing: int, policy: RateLimitPolicy): (ticks: int)
    requires policy.Valid() && missing >= 1
    ensures ticks >= 0
    ensures ticks * policy.limit <= missing * policy.window < (ticks + 1) * policy.limit
    ensures policy.window >= policy.limit ==> ticks >= 1
  {
    var x := missing * policy.window;
    assert x >= policy.window by { NonNegativeProduct(missing - 1, policy.window); }
    DivBetween(x, policy.limit);
    QuotientAtLeast(x, policy.limit, 0);
    QuotientAtLeast(x, policy.limit, 1);
    x / policy.limit
  }

  /** The reported reset time is when the bucket is full again, to the tick:
      the refill earned by then has not yet passed the missing tokens, and
      one tick later it covers them. */
  lemma FullAfterTicksToFull(missing: int, policy: RateLimitPolicy)
    requires policy.Valid() && missing >= 1
    ensures RefillAmount(TicksToFull(missing, policy), policy) <= missing
    ensures RefillAmount(TicksToFull(missing, policy) + 1, policy) >= missing
  {
    var t := TicksToFull(missing, policy);
    var before, after := t * policy.limit, (t + 1) * policy.limit;
    assert before <= missing * policy.window < after;
    assert (missing + 1) * policy.window == missing * policy.window + policy.window;
    QuotientAtLeast(before, policy.window, missing + 1);
    QuotientAtLeast(after, policy.window, missing);
    assert RefillAmount(t, policy) == before / policy.window;
    assert RefillAmount(t + 1, policy) == after / policy.window;
  }

  /** The outcome of a check before the counter is built: the token count
      to store and the reset time to report. */
  datatype BucketStep = BucketStep(tokens: int, resetTime: int)

  /** The tokens a stored bucket holds at `now`: earned tokens added, capped
      at capacity. */
  function Available(stored: RateLimitCounter, now: int, capacity: int, policy: RateLimitPolicy): (tokens: int)
    requires policy.Valid() && capacity > 0
    ensures tokens <= capacity
    ensures stored.count >= 0 && now >= stored.resetTime ==> tokens >= 0
    ensures now == stored.resetTime ==> tokens == Min(capacity, stored.count)
  {
    Min(capacity, stored.count + RefillAmount(now - stored.resetTime, policy))
  }

  /** One check on what the store holds for a key. A first check finds the
      bucket full and takes one token; later checks refill, cap, and take one
      token only when there is one; an empty bucket stays at zero. */
  function Step(stored: Option<RateLimitCounter>, now: nat, capacity: int, policy: RateLimitPolicy): (s: BucketStep)
    requires policy.Valid() && capacity == policy.limit
    ensures stored.None? ==> s == BucketStep(capacity - 1, now + policy.window)
    ensures stored.Some? ==>
              var available := Available(stored.value, now, capacity, policy);
              && s.tokens == (if available > 0 then available - 1 else available)
              && s.resetTime == now + TicksToFull(capacity - s.tokens, policy)
    ensures s.tokens <= capacity - 1
    ensures s.resetTime >= now
    ensures policy.window >= policy.limit ==> s.resetTime > now
    ensures stored.Some? && stored.value.Valid() && now >= stored.value.resetTime ==> s.tokens >= 0
  {
    match stored
    case None => BucketStep(capacity - 1, now + policy.window)
    case Some(c) =>
      var available := Available(c, now, capacity, policy);
      var tokens := if available > 0 then available - 1 else available;
      BucketStep(tokens, now + TicksToFull(capacity - tokens, policy))
  }

  /** The decision as written: a denial for a negative token count, waiting
      for one token; otherwise allowed with the tokens left. */
  function BucketDecide(tokens: int, resetTime: int, policy: RateLimitPolicy): (d: RateLimitResult)
    requires policy.Valid()
    ensures d.Limited? <==> tokens < 0
    ensures d.Success? ==> d.remaining == tokens && d.reset == resetTime
  {
    if tokens < 0 then
      Limited(0, resetTime, policy.window / policy.limit)
    else
      Success(tokens, resetTime)
  }

  /** Every stored bucket holds at most `capacity - 1` tokens and was last
      touched no later than `now`. */
  ghost predicate BucketsInRange(m: map<string, RateLimitCounter>, capacity: int, now: int) {
    forall k :: k in m ==> m[k].count <= capacity - 1 && m[k].resetTime <= now
  }

  /** The range invariant survives the clock moving forward. */
  lemma BucketsInRangeLater(m: map<string, RateLimitCounter>, capacity: int, now: int, later: int)
    requires BucketsInRange(m, capacity, now) && now <= later
    ensures BucketsInRange(m, capacity, later)
  {
  }

  /** A check on an empty bucket takes no token and is still allowed, with
      nothing remaining. */
  lemma EmptyBucketStillAllowed(stored: RateLimitCounter, now: nat, policy: RateLimitPolicy)
    requires policy.Valid()
    requires Available(stored, now, policy.limit, policy) == 0
    ensures Step(Some(stored), now, policy.limit, policy).tokens == 0
    ensures BucketDecide(0, Step(Some(stored), now, policy.limit, policy).resetTime, policy).Success?
    ensures BucketDecide(0, Step(Some(stored), now, policy.limit, policy).resetTime, policy).remaining == 0
  {
  }

  /** The stored state after `n` checks of one key at one instant, starting
      from a store without that key. */
  function CallsAt(n: nat, now: nat, policy: RateLimitPolicy): (r: Result<Option<RateLimitCounter>>)
    requires policy.Valid()
    ensures n == 0 <==> r == Ok(None)
    ensures r.Ok? && r.value.Some? ==>
              r.value.value.Valid() && r.value.value.count <= policy.limit - 1 && r.value.value.resetTime == now
  {
    if n == 0 then Ok(None)
    else
      match CallsAt(n - 1, now, policy)
      case Err(e) => Err(e)
      case Ok(stored) =>
        var s := Step(stored, now, policy.limit, policy);
        match NewCounter(s.tokens, now)
        case Err(e) => Err(e)
        case Ok(c) => Ok(Some(c))
  }

  /** From an empty store at one instant, the n-th check leaves
      `max(capacity - n, 0)` tokens and reports them as remaining: a burst
      drains the bucket to zero, and every further check is still allowed. */
  lemma {:induction false} Burst(n: nat, now: nat, policy: RateLimitPolicy)
    requires policy.Valid()
    requires n >= 1
    ensures var left := if n <= policy.limit then policy.limit - n else 0;
            && CallsAt(n, now, policy) == Ok(Some(RateLimitCounter(left, now)))
            && BucketDecide(Step(CallsAt(n - 1, now, policy).value, now, policy.limit, policy).tokens,
                            Step(CallsAt(n - 1, now, policy).value, now, policy.limit, policy).resetTime,
                            policy).Success?
            && Step(CallsAt(n - 1, now, policy).value, now, policy.limit, policy).tokens == left
  {
    if n > 1 {
      Burst(n - 1, now, policy);
      var prev := if n - 1 <= policy.limit then policy.limit - (n - 1) else 0;
      assert Available(RateLimitCounter(prev, now), now, policy.limit, policy) == prev;
    }
  }

  class TokenBucketRateLimiter {
    const store: InMemoryRateLimitStore
    const policy: RateLimitPolicy
    const capacity: int

    constructor(store: InMemoryRateLimitStore, policy: RateLimitPolicy)
      requires policy.Valid()
      ensures this.store == store && this.policy == policy && capacity == policy.limit
    {
      this.store := store;
      this.policy := policy;
      this.capacity := policy.limit;
    }

    /** `ShouldLimitAsync` at clock reading `now`. The key's entry becomes
        `{tokens, now}` from `Step` and every other entry is kept. A negative
        token count is rejected by the counter constructor before anything
        is written, so the denial branch of the decision is never reached:
        every check that returns is allowed. With a clock that never goes
        backwards the stored token counts stay within [0, capacity - 1]
        and no check fails, as long as the refill fits in 32 bits (the
        refill here is exact). */
    method ShouldLimit(key: string, now: nat, cancelled: bool) returns (r: Result<RateLimitResult>)
      requires store.Valid() && policy.Valid() && capacity == policy.limit
      modifies store
      ensures store.Valid()
      ensures IsBlank(key) ==> r == Err(BlankKey) && store.counters == old(store.counters)
      ensures !IsBlank(key) && cancelled ==> r == Err(Cancelled) && store.counters == old(store.counters)
      ensures !IsBlank(key) && !cancelled ==>
                var s := Step(Lookup(old(store.counters), key), now, capacity, policy);
                && (s.tokens < 0 ==> r == Err(NegativeCount) && store.counters == old(store.counters))
                && (s.tokens >= 0 ==> r == Ok(BucketDecide(s.tokens, s.resetTime, policy))
                                      && store.counters == old(store.counters)[FoldCase(key) := RateLimitCounter(s.tokens, now)])
      ensures r.Ok? ==> r.value.Success?
      ensures BucketsInRange(old(store.counters), capacity, now) ==>
                && BucketsInRange(store.counters, capacity, now)
                && (!IsBlank(key) && !cancelled ==> r.Ok?)
    {
      if IsBlank(key) {
        return Err(BlankKey);
      }
      var got := store.Get(key, cancelled);
      if got.Err? {
        return Err(got.error);
      }
      var counter := got.value;

      var tokens: int;
      var resetTime: int;
      if counter.None? {
        // the bucket starts full and this check takes one token
        tokens := capacity - 1;
        resetTime := now + policy.window;
      } else {
        var elapsed := now - counter.value.resetTime;
        var refill := RefillAmount(elapsed, policy);
        tokens := Min(capacity, counter.value.count + refill);
        if tokens > 0 {
          tokens := tokens - 1;
        }
        resetTime := now + TicksToFull(capacity - tokens, policy);
      }
      assert BucketStep(tokens, resetTime) == Step(counter, now, capacity, policy);

      var built := NewCounter(tokens, now);
      if built.Err? {
        return Err(built.error);
      }
      var written := store.Set(key, built.value, cancelled);
      assert written == Pass;  // the token was not signalled at the read either

      r := Ok(BucketDecide(tokens, resetTime, policy));
    }

    /** The limit reported in the `X-RateLimit-Limit` header: the capacity. */
    function GetLimit(): (limit: int)
      requires policy.Valid() && capacity == policy.limit
      ensures limit == policy.limit && 0 < limit
    {
      capacity
    }
  }
}
