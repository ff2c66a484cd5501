/** `SlidingWindowRateLimiter`: two store entries per key, `key:current`
    and `key:previous`; the current one follows the fixed-window rule and
    the decision weighs the previous one by the part of the current window
    that has not yet elapsed. */
module SlidingWindow {
  import opened Basics
  import opened RateLimitCounters
  import opened Policies
  import opened Decisions
  import opened Store
  import opened FixedWindow

  const CurrentSuffix: string := ":current"
  const PreviousSuffix: string := ":previous"

  /** The previous-window counter as the decision sees it: dropped once its
      reset time has strictly passed. */
  function LivePrevious(stored: Option<RateLimitCounter>, now: int): (previous: Option<RateLimitCounter>)
    ensures previous.Some? <==> stored.Some? && stored.value.resetTime >= now
    ensures previous.Some? ==> previous == stored
  {
    if stored.Some? && stored.value.resetTime < now then None else stored
  }

  /** The part of the current aligned window that has elapsed at `now`. */
  function WindowFraction(now: nat, window: int): (fraction: real)
    requires window > 0
    ensures 0.0 <= fraction < 1.0
  {
    var elapsed := now - AlignWindow(now, window);
    FractionInUnit(elapsed as real, window as real);
    elapsed as real / window as real
  }

  /** A part of a positive whole, divided by the whole, lies in [0, 1). */
  lemma FractionInUnit(part: real, whole: real)
    requires 0.0 <= part < whole
    ensures 0.0 <= part / whole < 1.0
  {
    var f := part / whole;
    assert part == f * whole;
    assert (1.0 - f) * whole == whole - part;
  }

  /** The previous window's count scaled by the part of the current window
      still to run: 0 without a previous counter, never more than its count. */
  function WeightedPrevious(previous: Option<RateLimitCounter>, fraction: real): (weighted: real)
    requires 0.0 <= fraction < 1.0
    requires previous.Some? ==> previous.value.Valid()
    ensures previous.None? ==> weighted == 0.0
    ensures previous.Some? ==> 0.0 <= weighted <= previous.value.count as real
    ensures previous.Some? && previous.value.count > 0 ==> weighted > 0.0
  {
    match previous
    case None => 0.0
    case Some(p) =>
      Scale(p.count as real, 1.0 - fraction)
  }

  /** An amount scaled by a factor in (0, 1]: never negative nor larger than
      the amount, and positive when the amount is. */
  function Scale(amount: real, factor: real): (scaled: real)
    requires amount >= 0.0 && 0.0 < factor <= 1.0
    ensures 0.0 <= scaled <= amount
    ensures amount > 0.0 ==> scaled > 0.0
  {
    ScaleByFraction(amount, factor);
    amount * factor
  }

  lemma ScaleByFraction(amount: real, factor: real)
    requires amount >= 0.0 && 0.0 < factor <= 1.0
    ensures 0.0 <= amount * factor <= amount
    ensures amount > 0.0 ==> amount * factor > 0.0
  {
    assert amount - amount * factor == amount * (1.0 - factor);
  }

  /** `(int)Math.Ceiling(x)`: the least integer at or above x. */
  function Ceiling(x: real): (c: int)
    ensures c as real - 1.0 < x <= c as real
  {
    if x.Floor as real == x then x.Floor else x.Floor + 1
  }

  /** The weighted request count of the sliding window: at least the current
      count, and exactly it without a previous counter. */
  function TotalCount(current: RateLimitCounter, previous: Option<RateLimitCounter>, now: nat, window: int): (total: real)
    requires window > 0
    requires previous.Some? ==> previous.value.Valid()
    ensures total >= current.count as real
    ensures previous.None? ==> total == current.count as real
    ensures previous.Some? ==> total <= (current.count + previous.value.count) as real
  {
    current.count as real + WeightedPrevious(previous, WindowFraction(now, window))
  }

  /** Denied exactly when the weighted total exceeds the limit. */
  function SlidingDecide(current: RateLimitCounter, previous: Option<RateLimitCounter>, now: nat, policy: RateLimitPolicy)
    : (d: RateLimitResult)
    requires policy.Valid()
    requires previous.Some? ==> previous.value.Valid()
    ensures d.Limited? <==> TotalCount(current, previous, now, policy.window) > policy.limit as real
  {
    var total := TotalCount(current, previous, now, policy.window);
    if total > policy.limit as real then
      Limited(0, current.resetTime, current.resetTime - now)
    else
      Success(policy.limit - Ceiling(total), current.resetTime)
  }

  /** A denial has nothing remaining and asks the caller to wait until the
      current window resets; an allowance reports `limit - ceil(total)`,
      which is never negative because the limit is a whole number, and never
      more than what the current window alone leaves. */
  lemma SlidingDecisionBounds(current: RateLimitCounter, previous: Option<RateLimitCounter>, now: nat, policy: RateLimitPolicy)
    requires policy.Valid()
    requires previous.Some? ==> previous.value.Valid()
    ensures var d := SlidingDecide(current, previous, now, policy);
            var total := TotalCount(current, previous, now, policy.window);
            && (d.Limited? ==> d == Limited(0, current.resetTime, current.resetTime - now))
            && (d.Success? ==> d.remaining == policy.limit - Ceiling(total)
                               && 0 <= d.remaining <= policy.limit - current.count
                               && d.reset == current.resetTime)
  {
    var total := TotalCount(current, previous, now, policy.window);
    var c := Ceiling(total);
    if total <= policy.limit as real {
      assert c as real - 1.0 < policy.limit as real;
      assert c <= policy.limit;
      assert current.count as real <= c as real;
    }
  }

  /** Without a previous counter the sliding decision is the fixed-window one. */
  lemma WithoutPreviousIsFixed(current: RateLimitCounter, now: nat, policy: RateLimitPolicy)
    requires policy.Valid()
    ensures SlidingDecide(current, None, now, policy) == Decide(current, now, policy.limit)
  {
    var total := TotalCount(current, None, now, policy.window);
    assert total == current.count as real;
    if current.count <= policy.limit {
      var c := Ceiling(total);
      assert c as real - 1.0 < current.count as real <= c as real;
      assert c == current.count;
    }
  }

  /** Weighing in a previous window can only make the limiter stricter: every
      request the fixed window would deny is denied here too. */
  lemma NoMoreLenientThanFixed(current: RateLimitCounter, previous: Option<RateLimitCounter>, now: nat, policy: RateLimitPolicy)
    requires policy.Valid()
    requires previous.Some? ==> previous.value.Valid()
    ensures Decide(current, now, policy.limit).Limited? ==> SlidingDecide(current, previous, now, policy).Limited?
  {
  }

  /** A store key that is the canonical spelling of some `k + ":previous"`. */
  ghost predicate IsPreviousEntry(k: string) {
    |k| >= |PreviousSuffix| && k[|k| - |PreviousSuffix|..] == FoldCase(PreviousSuffix)
  }

  ghost predicate NoPreviousEntries(m: map<string, RateLimitCounter>) {
    forall k :: k in m ==> !IsPreviousEntry(k)
  }

  /** A store without previous entries answers every `:previous` read with
      absent. */
  lemma PreviousAbsent(m: map<string, RateLimitCounter>, key: string)
    requires NoPreviousEntries(m)
    ensures Lookup(m, key + PreviousSuffix) == None
  {
    var k := FoldCase(key + PreviousSuffix);
    FoldCaseAppend(key, PreviousSuffix);
    assert k[|k| - |PreviousSuffix|..] == FoldCase(PreviousSuffix);
    assert IsPreviousEntry(k);
  }

  /** The entry a check writes for `:current` is never a previous entry:
      the two canonical spellings end in different letters. */
  lemma CurrentIsNotPrevious(key: string)
    ensures !IsPreviousEntry(FoldCase(key + CurrentSuffix))
  {
    var k := FoldCase(key + CurrentSuffix);
    assert k[|k| - 1] == FoldChar('t') == 'T';
    assert FoldCase(PreviousSuffix)[|PreviousSuffix| - 1] == FoldChar('s') == 'S';
  }

  /** Writing a `:current` entry keeps a store free of previous entries. */
  lemma WriteCurrentKeepsNoPrevious(m: map<string, RateLimitCounter>, key: string, c: RateLimitCounter)
    requires NoPreviousEntries(m)
    ensures NoPreviousEntries(m[FoldCase(key + CurrentSuffix) := c])
  {
    CurrentIsNotPrevious(key);
  }

  /** Rewriting an entry with the value it already holds, after writing a
      different entry, changes nothing. */
  lemma RewriteSameValue(m: map<string, RateLimitCounter>, written: string, c: RateLimitCounter, rewritten: string)
    requires rewritten in m && rewritten != written
    ensures m[written := c][rewritten := m[rewritten]] == m[written := c]
  {
  }

  /** The two entries of one key never share a slot. */
  lemma EntriesDistinct(key: string)
    ensures FoldCase(key + CurrentSuffix) != FoldCase(key + PreviousSuffix)
  {
    assert |FoldCase(key + CurrentSuffix)| != |FoldCase(key + PreviousSuffix)|;
  }

  class SlidingWindowRateLimiter {
    const store: InMemoryRateLimitStore
    const policy: RateLimitPolicy

    constructor(store: InMemoryRateLimitStore, policy: RateLimitPolicy)
      requires policy.Valid()
      ensures this.store == store && this.policy == policy
    {
      this.store := store;
      this.policy := policy;
    }

    /** `ShouldLimitAsync` at clock reading `now`. Only `key:current` and
        `key:previous` are read. The current entry follows the fixed-window
        rule; the previous entry is either left alone (expired) or rewritten
        with the value just read, so its stored value never changes. Hence
        a store that holds no previous entries keeps holding none, and then
        every decision is the fixed-window decision on `key:current`. */
    method ShouldLimit(key: string, now: nat, cancelled: bool) returns (r: Result<RateLimitResult>)
      requires store.Valid() && policy.Valid()
      modifies store
      ensures store.Valid()
      ensures IsBlank(key) ==> r == Err(BlankKey) && store.counters == old(store.counters)
      ensures !IsBlank(key) && cancelled ==> r == Err(Cancelled) && store.counters == old(store.counters)
      ensures !IsBlank(key) && !cancelled ==>
                var current := Lookup(old(store.counters), key + CurrentSuffix);
                var previous := LivePrevious(Lookup(old(store.counters), key + PreviousSuffix), now);
                var next := NextWindowCounter(current, now, policy.window);
                && (next.Err? ==> r == Err(next.error) && store.counters == old(store.counters))
                && (next.Ok? ==> r == Ok(SlidingDecide(next.value, previous, now, policy))
                                 && store.counters == old(store.counters)[FoldCase(key + CurrentSuffix) := next.value])
      ensures NoPreviousEntries(old(store.counters)) ==> NoPreviousEntries(store.counters)
      ensures NoPreviousEntries(old(store.counters)) && !IsBlank(key) && !cancelled ==>
                var next := NextWindowCounter(Lookup(old(store.counters), key + CurrentSuffix), now, policy.window);
                next.Ok? ==> r == Ok(Decide(next.value, now, policy.limit))
    {
      if IsBlank(key) {
        return Err(BlankKey);
      }
      ghost var initial := store.counters;
      var windowSize := policy.window;
      var currentWindowStart := AlignWindow(now, windowSize);

      var gotCurrent := store.Get(key + CurrentSuffix, cancelled);
      if gotCurrent.Err? {
        return Err(gotCurrent.error);
      }
      var gotPrevious := store.Get(key + PreviousSuffix, cancelled);
      assert gotPrevious.Ok?;  // the token was not signalled at the first read either
      var currentCounter := gotCurrent.value;
      var previousCounter := gotPrevious.value;

      if previousCounter.Some? && previousCounter.value.resetTime < now {
        previousCounter := None;
      }
      assert previousCounter == LivePrevious(Lookup(initial, key + PreviousSuffix), now);

      var built: Result<RateLimitCounter>;
      if currentCounter.None? || currentCounter.value.resetTime < now {
        built := NewCounter(1, currentWindowStart + windowSize);
      } else {
        built := NewCounter(Wrap32(currentCounter.value.count + 1), currentCounter.value.resetTime);
      }
      assert built == NextWindowCounter(Lookup(initial, key + CurrentSuffix), now, windowSize);
      if built.Err? {
        return Err(built.error);
      }
      var counter := built.value;

      var written := store.Set(key + CurrentSuffix, counter, cancelled);
      assert written == Pass;
      if previousCounter.Some? {
        written := store.Set(key + PreviousSuffix, previousCounter.value, cancelled);
        assert written == Pass;
        EntriesDistinct(key);
        RewriteSameValue(initial, FoldCase(key + CurrentSuffix), counter, FoldCase(key + PreviousSuffix));
      }
      if NoPreviousEntries(initial) {
        WriteCurrentKeepsNoPrevious(initial, key, counter);
      }

      // weigh the previous window by the part of the current one still to run,
      // add the current count and compare the total with the limit
      r := Ok(SlidingDecide(counter, previousCounter, now, policy));

      if NoPreviousEntries(initial) {
        PreviousAbsent(initial, key);
        WithoutPreviousIsFixed(counter, now, policy);
      }
    }

    /** The limit reported in the `X-RateLimit-Limit` header. */
    function GetLimit(): (limit: int)
      requires policy.Valid()
      ensures limit == policy.limit && 0 < limit
    {
      policy.limit
    }
  }
}
