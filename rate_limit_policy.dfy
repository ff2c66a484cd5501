/** `RateLimitPolicy`: a validated, immutable configuration (name, limit,
    window in ticks, partition-key selector) with copy-with mutators. */
module Policies {
  import opened Basics

  /** `RateLimitContext`: the identity of a request; its key may be null. */
  datatype RateLimitContext = RateLimitContext(requestKey: Option<string>)

  /** A partition-key selector: a delegate over a possibly null context
      that may itself return null. */
  type Selector = Option<RateLimitContext> -> Option<string>

  /** The key that collapses all unkeyed traffic into one shared bucket. */
  const SentinelKey: string := "_"

  /** `context?.RequestKey ?? "_"`: the request's own key when there is one. */
  function FallbackKey(context: Option<RateLimitContext>): (key: string)
    ensures context.Some? && context.value.requestKey.Some? ==> key == context.value.requestKey.value
    ensures context.None? || context.value.requestKey.None? ==> key == SentinelKey
  {
    match context
    case Some(RateLimitContext(Some(k))) => k
    case _ => SentinelKey
  }

  /** The selector a policy gets when none is supplied; it never returns null. */
  function DefaultSelector(context: Option<RateLimitContext>): (key: Option<string>)
    ensures key == Some(FallbackKey(context))
  {
    Some(FallbackKey(context))
  }

  datatype RateLimitPolicy = RateLimitPolicy(
    name: string,
    limit: int,
    window: int,
    partitionKeySelector: Selector)
  {
    /** What construction guarantees: a non-blank name and a positive limit
        and window. The limit is a C# `int`. */
    predicate Valid() {
      !IsBlank(name) && 0 < limit <= MaxInt32 && window > 0
    }

    /** The selector's key if it gives one, else the request key, else "_". */
    function ResolvePartitionKey(context: Option<RateLimitContext>): (key: string)
      ensures partitionKeySelector(context).Some? ==> key == partitionKeySelector(context).value
      ensures partitionKeySelector(context).None? ==> key == FallbackKey(context)
    {
      match partitionKeySelector(context)
      case Some(k) => k
      case None => FallbackKey(context)
    }

    function WithName(newName: string): (r: Result<RateLimitPolicy>)
      requires Valid()
      ensures r.Ok? <==> !IsBlank(newName)
      ensures r.Err? ==> r.error == BlankName
      ensures r.Ok? ==> r.value == this.(name := newName) && r.value.Valid()
    {
      NewPolicy(newName, limit, window, Some(partitionKeySelector))
    }

    function WithLimit(newLimit: int): (r: Result<RateLimitPolicy>)
      requires Valid() && IsInt32(newLimit)
      ensures r.Ok? <==> newLimit > 0
      ensures r.Err? ==> r.error == NonPositiveLimit
      ensures r.Ok? ==> r.value == this.(limit := newLimit) && r.value.Valid()
    {
      NewPolicy(name, newLimit, window, Some(partitionKeySelector))
    }

    function WithWindow(newWindow: int): (r: Result<RateLimitPolicy>)
      requires Valid()
      ensures r.Ok? <==> newWindow > 0
      ensures r.Err? ==> r.error == NonPositiveWindow
      ensures r.Ok? ==> r.value == this.(window := newWindow) && r.value.Valid()
    {
      NewPolicy(name, limit, newWindow, Some(partitionKeySelector))
    }

    /** A null selector (None) is replaced by the default one. */
    function WithPartitionSelector(selector: Option<Selector>): (r: Result<RateLimitPolicy>)
      requires Valid()
      ensures r.Ok? && r.value.Valid()
      ensures selector.Some? ==> r.value == this.(partitionKeySelector := selector.value)
      ensures selector.None? ==> r.value == this.(partitionKeySelector := DefaultSelector)
    {
      NewPolicy(name, limit, window, selector)
    }
  }

  /** The constructor: the name is checked first, then the limit, then the
      window; an absent selector becomes `DefaultSelector`. */
  function NewPolicy(name: string, limit: int, window: int, selector: Option<Selector> := None)
    : (r: Result<RateLimitPolicy>)
    requires IsInt32(limit)
    ensures r.Ok? <==> !IsBlank(name) && limit > 0 && window > 0
    ensures IsBlank(name) ==> r == Err(BlankName)
    ensures !IsBlank(name) && limit <= 0 ==> r == Err(NonPositiveLimit)
    ensures !IsBlank(name) && limit > 0 && window <= 0 ==> r == Err(NonPositiveWindow)
    ensures r.Ok? ==> r.value.Valid()
    ensures r.Ok? ==> r.value.name == name && r.value.limit == limit && r.value.window == window
    ensures r.Ok? && selector.Some? ==> r.value.partitionKeySelector == selector.value
    ensures r.Ok? && selector.None? ==> r.value.partitionKeySelector == DefaultSelector
  {
    if IsBlank(name) then Err(BlankName)
    else if limit <= 0 then Err(NonPositiveLimit)
    else if window <= 0 then Err(NonPositiveWindow)
    else Ok(RateLimitPolicy(name, limit, window, match selector case Some(s) => s case None => DefaultSelector))
  }

  /** With no selector, a policy keys each request by its own request key,
      and every request without one lands in the shared "_" bucket. */
  lemma DefaultPolicyResolution(name: string, limit: int, window: int, context: Option<RateLimitContext>)
    requires IsInt32(limit)
    requires NewPolicy(name, limit, window).Ok?
    ensures context.Some? && context.value.requestKey.Some? ==>
              NewPolicy(name, limit, window).value.ResolvePartitionKey(context) == context.value.requestKey.value
    ensures context.None? || context.value.requestKey.None? ==>
              NewPolicy(name, limit, window).value.ResolvePartitionKey(context) == SentinelKey
  {
    var p := NewPolicy(name, limit, window).value;
    assert p.partitionKeySelector(context) == DefaultSelector(context);
  }

  /** Changing the limit and changing it back gives the original policy:
      the mutator touches nothing but the limit. */
  lemma WithLimitRoundTrip(p: RateLimitPolicy, newLimit: int)
    requires p.Valid() && 0 < newLimit <= MaxInt32
    ensures p.WithLimit(newLimit).Ok?
    ensures p.WithLimit(newLimit).value.WithLimit(p.limit) == Ok(p)
  {
  }
}
