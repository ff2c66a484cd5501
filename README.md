# Throttlr rate-limiting core in Dafny

This project models the decision engine of Throttlr, an ASP.NET Core rate-limiting library.
A limiter answers one question per request key: allowed or limited.
It answers by reading the key's counter from a store, computing a new counter, writing it back and deciding on it.
The model covers three limiters:

- **Fixed window**: windows are aligned to absolute ticks, and a counter is either started fresh or incremented.
- **Sliding window**: a `key:current` / `key:previous` pair is read, and the previous count is weighted by the part of the window still to run.
- **Token bucket**: the bucket is refilled in proportion to elapsed time, capped at capacity, and one token is consumed.

It also covers the immutable values the limiters rely on:

- `RateLimitPolicy`: name, limit, window and partition-key selector, with validation and copy-with mutators.
- `RateLimitCounter`: a non-negative count with a reset time.
- `TokenBucketCounter` and `SlidingWindowCounter`: two pure counter helpers.

Finally, it covers the case-insensitive in-memory store.

Modelling choices:

- Time is an integer number of ticks. The clock reading `now` is a parameter, and ticks are never negative.
- The store is a class holding a `map<string, RateLimitCounter>`. Keys are filed under their case-folded spelling.
- Each limiter is a class whose `ShouldLimit` method updates that map in place. Each method's postcondition ties:
  - the new map to the old map updated at the key's canonical spelling, with every other entry kept;
  - the returned decision to pure specification functions, whose properties are proved as lemmas.
- Exceptions are values: `Err(BlankKey)`, `Err(Cancelled)`, `Err(NegativeCount)` and so on, or `Fail(...)` for a store write.
- A `CancellationToken` is one boolean per call.
- The decision is `Limited(remaining, reset, retryAfter)` or `Success(remaining, reset)`. This is the shape every limiter builds and the middleware reads.
- 32-bit wrap-around is written out (`Wrap32`) wherever the code increments or decrements an `int` count.

Behaviours of the code that the proofs pin down:

- **Sliding window.** The limiter never creates a `:previous` entry. The entry is either left alone or rewritten with the value just read. A store without previous entries keeps having none, and on such a store every sliding decision equals the fixed-window decision (`SlidingWindow.SlidingWindowRateLimiter.ShouldLimit`, `SlidingWindow.WithoutPreviousIsFixed`).
- **Token bucket, denials.** The limiter never denies. The counter constructor rejects a negative token count before the `tokens < 0` denial branch is reached, so every check that returns is allowed (`TokenBucket.TokenBucketRateLimiter.ShouldLimit`).
- **Token bucket, burst.** A burst drains the bucket to zero, and further checks are still allowed with nothing remaining (`TokenBucket.Burst`, `TokenBucket.EmptyBucketStillAllowed`). The code does this and the model keeps it.
- **Fixed window overflow.** The 2^31-th check of one key within one window fails: the 32-bit increment wraps negative and the counter constructor rejects it (`FixedWindow.BurstOverflow`).

Files (one module each):

- `basics.dfy`: `Option`, `Result`, errors, 32-bit arithmetic, whitespace.
- `rate_limit_counter.dfy`
- `rate_limit_policy.dfy`
- `rate_limit_result.dfy`
- `in_memory_store.dfy`
- `token_bucket_counter.dfy`
- `sliding_window_counter.dfy`
- `fixed_window.dfy`
- `sliding_window.dfy`
- `token_bucket.dfy`

## Model

| member | source | states |
|---|---|---|
| Basics.BlankExamples | src/Throttlr.Api.RateLimit/Core/RateLimitPolicy.cs:52 | the empty string and strings of spaces, tabs, line breaks, no-break and ideographic spaces are blank (as `string.IsNullOrWhiteSpace` judges them, here and at FixedWindowRateLimiter.cs:36); one visible character, or a zero-width space, makes a string non-blank |
| Basics.TruncDiv | src/Throttlr.Api.RateLimit/Core/TokenBucketRateLimiter.cs:70 | the `(int)` cast of a quotient rounds toward zero: the floor quotient for a non-negative dividend, never positive for a non-positive one, positive exactly when the dividend reaches the divisor and negative exactly when it reaches minus the divisor; for a negative dividend, the least multiple of the divisor at or above it, divided (also TokenBucketCounter.cs:46) |
| Basics.Wrap32 | src/Throttlr.Api.RateLimit/Core/FixedWindowRateLimiter.cs:57 | C# `int` arithmetic: the result is a 32-bit value congruent to the exact one modulo 2^32, equal to it when it fits, and MaxInt32 + 1 wraps to MinInt32 |
| RateLimitCounters.NewCounter | src/Throttlr.Api.RateLimit/Core/Counter/RateLimitCounter.cs:17-23 | succeeds exactly when count >= 0 (zero included), fails with a negative-count error otherwise, and the built counter holds the arguments unchanged |
| Store.FoldCaseEqual | src/Throttlr.Api.RateLimit/Core/Store/InMemoryRateLimitStore.cs:22-23 | two keys are filed under the same canonical spelling if and only if they are equal ignoring case |
| Store.Lookup | src/Throttlr.Api.RateLimit/Core/Store/InMemoryRateLimitStore.cs:32-33 | a key is found exactly when its canonical spelling is in the map, and then yields that entry; a key never set is absent |
| Store.InMemoryRateLimitStore.constructor | src/Throttlr.Api.RateLimit/Core/Store/InMemoryRateLimitStore.cs:20-24 | a new store is empty |
| Store.InMemoryRateLimitStore.Get | src/Throttlr.Api.RateLimit/Core/Store/InMemoryRateLimitStore.cs:27-34 | a cancelled call fails; otherwise returns the entry filed under the key's case-folded spelling, and never modifies the map |
| Store.InMemoryRateLimitStore.Set | src/Throttlr.Api.RateLimit/Core/Store/InMemoryRateLimitStore.cs:37-44 | a cancelled call fails and leaves the map unchanged; otherwise overwrites the key's entry unconditionally and keeps every other entry |
| Store.LookupAfterWrite | src/Throttlr.Api.RateLimit/Core/Store/InMemoryRateLimitStore.cs:32-42 | after a write, reading any case-variant of the key returns the written counter, and reading any other key returns what it returned before |
| Store.UpperCaseWriteLowerCaseRead | src/Throttlr.Api.RateLimit/Core/Store/InMemoryRateLimitStore.cs:22-23 | writing "ABC" makes a read of "abc" return the written counter |
| Store.FoldCase | src/Throttlr.Api.RateLimit/Core/Store/InMemoryRateLimitStore.cs:22-23 | the canonical spelling of a key has its length and upper-cases each ASCII letter, leaving every other character as it is |
| Store.IgnoreCaseEquivalence | src/Throttlr.Api.RateLimit/Core/Store/InMemoryRateLimitStore.cs:22-23 | ignore-case equality of keys is reflexive, symmetric and transitive |
| Store.IgnoreCaseExamples | src/Throttlr.Api.RateLimit/Core/Store/InMemoryRateLimitStore.cs:22-23 | "abc", "ABC" and "aBc" are the same key; "abd", "ab" and "A-1" versus "a_1" are different keys |
| Policies.FallbackKey | src/Throttlr.Api.RateLimit/Core/RateLimitPolicy.cs:62 | the request key when context and key are present, otherwise "_" |
| Policies.DefaultSelector | src/Throttlr.Api.RateLimit/Core/RateLimitPolicy.cs:62 | the default selector never returns null and returns the fallback key |
| Policies.NewPolicy | src/Throttlr.Api.RateLimit/Core/RateLimitPolicy.cs:46-63 | succeeds if and only if the name is not blank and limit and window are positive; reports the first failing check in name, limit, window order; stores the arguments; an absent selector becomes the default |
| Policies.RateLimitPolicy.ResolvePartitionKey | src/Throttlr.Api.RateLimit/Core/RateLimitPolicy.cs:68-69 | the selector's key when it gives one, otherwise the request key, otherwise "_" |
| Policies.RateLimitPolicy.WithName | src/Throttlr.Api.RateLimit/Core/RateLimitPolicy.cs:74-75 | re-validates: succeeds if and only if the new name is not blank, and then differs from the original only in its name |
| Policies.RateLimitPolicy.WithLimit | src/Throttlr.Api.RateLimit/Core/RateLimitPolicy.cs:80-81 | re-validates: succeeds if and only if the new limit is positive (so 0 fails), and then differs from the original only in its limit |
| Policies.RateLimitPolicy.WithWindow | src/Throttlr.Api.RateLimit/Core/RateLimitPolicy.cs:86-87 | re-validates: succeeds if and only if the new window is positive, and then differs only in its window |
| Policies.RateLimitPolicy.WithPartitionSelector | src/Throttlr.Api.RateLimit/Core/RateLimitPolicy.cs:92-93 | always succeeds, changes only the selector, and a null selector becomes the default fallback |
| Policies.DefaultPolicyResolution | src/Throttlr.Api.RateLimit/Core/RateLimitPolicy.cs:62-69 | a policy built without a selector resolves to the request key, or to "_" when the context or its key is null |
| Policies.WithLimitRoundTrip | src/Throttlr.Api.RateLimit/Core/RateLimitPolicy.cs:80-81 | changing the limit and changing it back gives back the original policy |
| TokenBucketCounters.TokenBucketCounter.TokensToAdd | src/Throttlr.Api.RateLimit/Core/Counter/TokenBucketCounter.cs:42-46 | the earned tokens are elapsed * limit / window truncated toward zero: positive exactly when a whole token has been earned, never positive when the clock did not advance |
| TokenBucketCounters.TokenBucketCounter.Refill | src/Throttlr.Api.RateLimit/Core/Counter/TokenBucketCounter.cs:40-56 | with nothing earned the counter is returned as is; otherwise the count becomes min(count + earned, limit), the last refill becomes now, the expiry becomes now + window; a count at most the limit is never lowered or lifted above it |
| TokenBucketCounters.TokenBucketCounter.Consume | src/Throttlr.Api.RateLimit/Core/Counter/TokenBucketCounter.cs:61-62 | takes exactly one token with no floor (32-bit), keeping both timestamps |
| TokenBucketCounters.TokenBucketCounter.NextAvailableIn | src/Throttlr.Api.RateLimit/Core/Counter/TokenBucketCounter.cs:67-77 | zero while a token is left, otherwise window / limit; never negative, positive for an empty bucket when the window is at least the limit and zero when it is shorter |
| TokenBucketCounters.RefillThenConsume | src/Throttlr.Api.RateLimit/Core/Counter/TokenBucketCounter.cs:40-77 | refill then consume keeps a bucket in [-1, limit - 1], and the next-available wait is then zero exactly when a token is left (or one arrives within a tick) |
| SlidingWindowCounters.NewSlidingWindowCounter | src/Throttlr.Api.RateLimit/Core/Counter/SlidingWindowCounter.cs:34-44 | stores every argument unchanged, the previous-window count defaulting to 0 |
| SlidingWindowCounters.SlidingWindowCounter.Increment | src/Throttlr.Api.RateLimit/Core/Counter/SlidingWindowCounter.cs:49-69 | at or after the window end, rolls over to current = 1, previous = old current, start = now (not aligned), expiry = now + window; inside the window adds exactly one with 32-bit wrap-around (MaxInt32 + 1 becomes MinInt32) and keeps the rest; the current count is at least 1 afterwards whenever it was in [0, MaxInt32 - 1] before |
| SlidingWindowCounters.RolloverThenInWindow | src/Throttlr.Api.RateLimit/Core/Counter/SlidingWindowCounter.cs:53-68 | two increments at one instant past the window end: the first rolls over, the second counts inside the window it opened |
| FixedWindow.AlignWindow | src/Throttlr.Api.RateLimit/Core/FixedWindowRateLimiter.cs:40-42 | the window start is a multiple of the window with start <= now < start + window |
| FixedWindow.NextWindowCounter | src/Throttlr.Api.RateLimit/Core/FixedWindowRateLimiter.cs:46-59 | a fresh {1, start + window} when absent or strictly expired (a check at exactly the reset time still counts in the old window); otherwise count + 1 with the same reset time; fails at the 32-bit maximum; every new counter is valid with reset time >= now |
| FixedWindow.Decide | src/Throttlr.Api.RateLimit/Core/FixedWindowRateLimiter.cs:63-76 | limited if and only if count > limit |
| FixedWindow.DecisionBounds | src/Throttlr.Api.RateLimit/Core/FixedWindowRateLimiter.cs:63-76 | a denial has remaining 0, reset = reset time and retry-after = reset time - now >= 0; an allowance has remaining = limit - count in [0, limit - 1] |
| FixedWindow.CallsAt | src/Throttlr.Api.RateLimit/Core/FixedWindowRateLimiter.cs:44-61 | the counter left by n checks of one key at one instant is always one the counter constructor accepts |
| FixedWindow.Burst | src/Throttlr.Api.RateLimit/Core/FixedWindowRateLimiter.cs:46-76 | from an empty store at a fixed instant, the n-th check stores count n and is allowed with limit - n remaining if and only if n <= limit; later checks are denied while the count keeps growing |
| FixedWindow.BurstOverflow | src/Throttlr.Api.RateLimit/Core/FixedWindowRateLimiter.cs:56-58 | the 2^31-th check within one window fails with a negative-count error |
| FixedWindow.FixedWindowRateLimiter.constructor | src/Throttlr.Api.RateLimit/Core/FixedWindowRateLimiter.cs:21-29 | keeps the store and the policy |
| FixedWindow.FixedWindowRateLimiter.ShouldLimit | src/Throttlr.Api.RateLimit/Core/FixedWindowRateLimiter.cs:32-77 | a blank key or a cancelled call fails with the store unchanged; otherwise the key's entry becomes the next window counter, no other key changes, and the decision is Decide on it |
| FixedWindow.FixedWindowRateLimiter.GetLimit | src/Throttlr.Api.RateLimit/Core/FixedWindowRateLimiter.cs:79 | the policy's limit, which is positive |
| SlidingWindow.LivePrevious | src/Throttlr.Api.RateLimit/Core/SlidingWindowRateLimiter.cs:58-59 | the previous counter is kept exactly when present and its reset time has not strictly passed |
| SlidingWindow.WindowFraction | src/Throttlr.Api.RateLimit/Core/SlidingWindowRateLimiter.cs:82-83 | the elapsed fraction of the aligned window lies in [0, 1) |
| SlidingWindow.WeightedPrevious | src/Throttlr.Api.RateLimit/Core/SlidingWindowRateLimiter.cs:84 | 0 without a previous counter, otherwise between 0 and the previous count, positive when that count is |
| SlidingWindow.Ceiling | src/Throttlr.Api.RateLimit/Core/SlidingWindowRateLimiter.cs:97 | the least integer at or above its argument |
| SlidingWindow.TotalCount | src/Throttlr.Api.RateLimit/Core/SlidingWindowRateLimiter.cs:85 | the weighted total is at least the current count, at most current + previous, and exactly the current count without a previous counter |
| SlidingWindow.SlidingDecide | src/Throttlr.Api.RateLimit/Core/SlidingWindowRateLimiter.cs:87-98 | limited if and only if the weighted total exceeds the limit |
| SlidingWindow.SlidingDecisionBounds | src/Throttlr.Api.RateLimit/Core/SlidingWindowRateLimiter.cs:87-98 | a denial has remaining 0 and retry-after = current reset time - now; an allowance has remaining = limit - ceil(total), between 0 and limit - current count |
| SlidingWindow.WithoutPreviousIsFixed | src/Throttlr.Api.RateLimit/Core/SlidingWindowRateLimiter.cs:84-98 | without a previous counter the sliding decision equals the fixed-window decision |
| SlidingWindow.NoMoreLenientThanFixed | src/Throttlr.Api.RateLimit/Core/SlidingWindowRateLimiter.cs:84-87 | every check the fixed-window rule denies, the sliding rule denies too |
| SlidingWindow.PreviousAbsent | src/Throttlr.Api.RateLimit/Core/SlidingWindowRateLimiter.cs:55 | a store with no previous entries answers every `:previous` read with absent |
| SlidingWindow.CurrentIsNotPrevious | src/Throttlr.Api.RateLimit/Core/SlidingWindowRateLimiter.cs:75 | the `:current` entry a check writes is never a previous entry |
| SlidingWindow.WriteCurrentKeepsNoPrevious | src/Throttlr.Api.RateLimit/Core/SlidingWindowRateLimiter.cs:75 | writing a `:current` entry keeps a store free of previous entries |
| SlidingWindow.RewriteSameValue | src/Throttlr.Api.RateLimit/Core/SlidingWindowRateLimiter.cs:76-79 | rewriting the `:previous` entry with the value just read changes nothing |
| SlidingWindow.EntriesDistinct | src/Throttlr.Api.RateLimit/Core/SlidingWindowRateLimiter.cs:54-55 | the `:current` and `:previous` entries of one key never share a slot, whatever its case |
| SlidingWindow.SlidingWindowRateLimiter.constructor | src/Throttlr.Api.RateLimit/Core/SlidingWindowRateLimiter.cs:24-32 | keeps the store and the policy |
| SlidingWindow.SlidingWindowRateLimiter.ShouldLimit | src/Throttlr.Api.RateLimit/Core/SlidingWindowRateLimiter.cs:36-99 | a blank key or a cancelled call fails with the store unchanged; otherwise only `key:current` changes, to the fixed-window next counter, and the decision is SlidingDecide with the live previous counter; a store without previous entries keeps none, and then the decision is the fixed-window one |
| SlidingWindow.SlidingWindowRateLimiter.GetLimit | src/Throttlr.Api.RateLimit/Core/SlidingWindowRateLimiter.cs:101 | the policy's limit, which is positive |
| TokenBucket.RefillAmount | src/Throttlr.Api.RateLimit/Core/TokenBucketRateLimiter.cs:69-70 | the tokens earned are elapsed * limit / window truncated toward zero: non-negative for a non-negative elapsed time, positive exactly when a whole token was earned |
| TokenBucket.TicksToFull | src/Throttlr.Api.RateLimit/Core/TokenBucketRateLimiter.cs:81 | the time to refill the missing tokens at limit per window, in whole ticks: the largest t with t * limit <= missing * window, so never negative and at least one tick when the window is at least the limit |
| TokenBucket.FullAfterTicksToFull | src/Throttlr.Api.RateLimit/Core/TokenBucketRateLimiter.cs:80-82 | at the reported reset time the refill has not passed the missing tokens, and one tick later it covers them: the bucket is full again to within a tick |
| TokenBucket.Available | src/Throttlr.Api.RateLimit/Core/TokenBucketRateLimiter.cs:69-73 | the refilled count never exceeds capacity, is non-negative for a valid counter and a clock that did not go back, and is the capped stored count when no time passed |
| TokenBucket.Step | src/Throttlr.Api.RateLimit/Core/TokenBucketRateLimiter.cs:57-83 | a first check stores capacity - 1 with reset now + window; later checks consume one token if and only if one is available, with reset = now + time to full; tokens never exceed capacity - 1, are non-negative for a valid counter and a forward clock, and reset >= now |
| TokenBucket.BucketDecide | src/Throttlr.Api.RateLimit/Core/TokenBucketRateLimiter.cs:88-99 | limited if and only if tokens < 0; an allowance reports the tokens as remaining and the reset time |
| TokenBucket.BucketsInRangeLater | src/Throttlr.Api.RateLimit/Core/TokenBucketRateLimiter.cs:63-85 | the stored-bucket range invariant survives the clock moving forward |
| TokenBucket.EmptyBucketStillAllowed | src/Throttlr.Api.RateLimit/Core/TokenBucketRateLimiter.cs:75-78 | an empty bucket is not drawn below zero and the check is allowed with nothing remaining |
| TokenBucket.CallsAt | src/Throttlr.Api.RateLimit/Core/TokenBucketRateLimiter.cs:55-86 | no checks leave the key absent and any check leaves it present; every counter left by same-instant checks is valid, holds at most capacity - 1 tokens and carries this instant as its time |
| TokenBucket.Burst | src/Throttlr.Api.RateLimit/Core/TokenBucketRateLimiter.cs:57-99 | from an empty store at one instant the n-th check stores max(capacity - n, 0) tokens and is allowed with that many remaining |
| TokenBucket.TokenBucketRateLimiter.constructor | src/Throttlr.Api.RateLimit/Core/TokenBucketRateLimiter.cs:29-43 | keeps the store and the policy; the capacity is the policy's limit |
| TokenBucket.TokenBucketRateLimiter.ShouldLimit | src/Throttlr.Api.RateLimit/Core/TokenBucketRateLimiter.cs:46-100 | a blank key or a cancelled call fails with the store unchanged; otherwise the key's entry becomes {tokens, now} from Step and no other key changes, or a negative token count fails with the store unchanged; every returned decision is an allowance; with a forward clock the stored counts stay within [0, capacity - 1] and no check fails while the refill fits in 32 bits |
| TokenBucket.TokenBucketRateLimiter.GetLimit | src/Throttlr.Api.RateLimit/Core/TokenBucketRateLimiter.cs:102 | the capacity, which is the policy's positive limit |

## Left out

- Middleware, dependency-injection registration and the demo application are host I/O and wiring. `ISystemClock` / `SystemClock` are replaced by the `now` parameter.
- Concurrency and `async` are not modelled: calls are sequential. This leaves out `ConcurrentDictionary` thread safety and the lost update when two checks of one key interleave between `Get` and `Set`.
- Cancellation is one flag per call. A token signalled between the store calls of one check is not modelled.
- Floating point is not modelled. These are exact rationals (`real`) or integer tick arithmetic with truncation, without IEEE rounding:
  - `TotalSeconds` / `TotalMilliseconds`, `_tokensPerSecond`, the window fraction and `Math.Ceiling`;
  - the rounding of `AddSeconds` to milliseconds and of `FromSeconds` / `FromMilliseconds`.
- `DateTimeOffset` range overflow in `Add` / `AddSeconds` (a host-library exception) is not modelled.
- Case-insensitive comparison folds the ASCII letters only; the non-ASCII mappings of ordinal-ignore-case are not modelled.
- Null strings, null keys and a null policy, store or clock passed to a constructor are not modelled. A null context, a null request key and a null selector are modelled as `Option`.
- TokenBucket.TokenBucketRateLimiter.ShouldLimit: "no check fails with a forward clock" holds only because the refill is exact. In the code, after a key has been idle long enough for `count + refill` to exceed 32 bits (about 24.9 days at 1000 tokens per second), the sum goes negative, the counter constructor rejects it and nothing is written. Every later check of that key sees an even longer idle time, so the key fails for good. The model does not capture this.
- TokenBucket.Available: does not model 32-bit overflow of `count + refill` or of the double-to-int cast of the refill after a long idle period, because the cast of an out-of-range double is platform-dependent.
- TokenBucket.RefillAmount: the product elapsed * limit is exact, with no 32-bit cast overflow.
- TokenBucketCounters.TokenBucketCounter.Refill: the sum `TokensRemaining + tokensToAdd` is exact, not wrapped at 32 bits.
- TokenBucket.Step: proves reset > now only when the window (in ticks) is at least the limit. With truncation to whole ticks, a bucket missing one token under a very high rate can reset at `now` itself.
- `previousWindowStart` in the sliding limiter is computed and never used, so it is not modelled.
- SlidingWindow.SlidingWindowRateLimiter.ShouldLimit: the weighted total and the decision are computed by `SlidingDecide` rather than by statements inside the method.
- `Core/RateLimitResult.cs` is not part of this model. Its `Allowed` / `Denied(int)` API is not what the limiters call; `RateLimitResult` is rebuilt from the call sites.
- `Core/RateLimitCounter.cs` (the mutable duplicate with `TimestampUtc`) is not part of this model; it has no logic and no callers among the limiters.
- The code never seeds `:previous` from the outgoing `:current` counter, and the model keeps that: no rollover into a previous window is modelled because the code performs none.
- The token bucket never denies: an empty bucket still allows the check with 0 remaining, and the model keeps that.
