/** The immutable `RateLimitCounter(count, resetTime)` every limiter persists.
    Being a datatype, it has no setters: every update elsewhere builds a new one. */
module RateLimitCounters {
  import opened Basics

  datatype RateLimitCounter = RateLimitCounter(count: int, resetTime: int) {
    /** What the constructor guarantees of every counter that exists:
        a non-negative 32-bit count. */
    predicate Valid() {
      0 <= count <= MaxInt32
    }
  }

  /** The constructor: a negative count is rejected, anything else is kept as
      given. The count argument is a C# `int`, hence at most MaxInt32. */
  function NewCounter(count: int, resetTime: int): (r: Result<RateLimitCounter>)
    requires count <= MaxInt32
    ensures r.Ok? <==> count >= 0
    ensures r.Err? ==> r.error == NegativeCount
    ensures r.Ok? ==> r.value.Valid() && r.value.count == count && r.value.resetTime == resetTime
  {
    if count < 0 then Err(NegativeCount) else Ok(RateLimitCounter(count, resetTime))
  }

}
