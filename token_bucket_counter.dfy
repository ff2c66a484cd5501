/** `TokenBucketCounter`: an immutable token count with its last refill time
    and expiry; `Refill`, `Consume` and `NextAvailableIn` return new values. */
module TokenBucketCounters {
  import opened Basics
  import opened Policies

  datatype TokenBucketCounter = TokenBucketCounter(tokensRemaining: int, lastRefill: int, expiresAt: int)
  {
    /** `(int)(elapsedMs * limit / windowMs)`: the tokens earned since the last
        refill at the policy's rate, truncated toward zero. */
    function TokensToAdd(now: int, policy: RateLimitPolicy): (n: int)
      requires policy.Valid()
      ensures n > 0 <==> (now - lastRefill) * policy.limit >= policy.window
      ensures now <= lastRefill ==> n <= 0
      ensures now >= lastRefill ==> n == (now - lastRefill) * policy.limit / policy.window
    {
      var elapsed := now - lastRefill;
      NonNegativeProduct(elapsed, policy.limit);
      NonNegativeProduct(-elapsed, policy.limit);
      assert elapsed * policy.limit == -((-elapsed) * policy.limit);
      TruncDiv(elapsed * policy.limit, policy.window)
    }

    /** Adds the earned tokens, capped at the limit; with nothing earned
        (including a clock that went backwards) the counter is returned as is. */
    function Refill(now: int, policy: RateLimitPolicy): (r: TokenBucketCounter)
      requires policy.Valid()
      ensures TokensToAdd(now, policy) <= 0 ==> r == this
      ensures TokensToAdd(now, policy) > 0 ==>
                && r.tokensRemaining == Min(tokensRemaining + TokensToAdd(now, policy), policy.limit)
                && r.lastRefill == now
                && r.expiresAt == now + policy.window
      ensures r != this ==> r.tokensRemaining <= policy.limit
      ensures tokensRemaining <= policy.limit ==> tokensRemaining <= r.tokensRemaining <= policy.limit
    {
      var tokensToAdd := TokensToAdd(now, policy);
      if tokensToAdd <= 0 then this
      else TokenBucketCounter(Min(tokensRemaining + tokensToAdd, policy.limit), now, now + policy.window)
    }

    /** Takes one token with no floor, so the count can go below zero;
        a 32-bit count wraps. */
    function Consume(): (r: TokenBucketCounter)
      ensures r.lastRefill == lastRefill && r.expiresAt == expiresAt
      ensures IsInt32(tokensRemaining) && tokensRemaining > MinInt32 ==> r.tokensRemaining == tokensRemaining - 1
      ensures IsInt32(r.tokensRemaining)
    {
      TokenBucketCounter(Wrap32(tokensRemaining - 1), lastRefill, expiresAt)
    }

    /** Zero while a token is left; otherwise the time one token takes to
        arrive, `window / limit` ticks. */
    function NextAvailableIn(now: int, policy: RateLimitPolicy): (wait: int)
      requires policy.Valid()
      ensures tokensRemaining > 0 ==> wait == 0
      ensures tokensRemaining <= 0 ==> wait == policy.window / policy.limit
      ensures wait >= 0
      ensures tokensRemaining <= 0 && policy.window >= policy.limit ==> wait > 0
      ensures policy.window < policy.limit ==> wait == 0
    {
      if tokensRemaining > 0 then 0 else policy.window / policy.limit
    }
  }

  /** A bucket that holds between zero and `limit` tokens and is refilled and
      then drawn from keeps a count between -1 and `limit - 1`, and once a
      token is taken the wait before the next one is zero exactly when a
      token is left. */
  lemma RefillThenConsume(c: TokenBucketCounter, now: int, policy: RateLimitPolicy)
    requires policy.Valid()
    requires 0 <= c.tokensRemaining <= policy.limit
    ensures var r := c.Refill(now, policy).Consume();
            && -1 <= r.tokensRemaining <= policy.limit - 1
            && (r.NextAvailableIn(now, policy) == 0 <==> r.tokensRemaining > 0 || policy.window < policy.limit)
  {
    var refilled := c.Refill(now, policy);
    assert 0 <= refilled.tokensRemaining <= policy.limit;
    var r := refilled.Consume();
    assert r.tokensRemaining == refilled.tokensRemaining - 1;
    var wait := r.NextAvailableIn(now, policy);
    assert wait == 0 <==> r.tokensRemaining > 0 || policy.window < policy.limit;
  }
}
