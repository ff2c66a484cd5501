/** The decision one rate check produces, in the shape the limiters build
    and the middleware reads: limited or not, remaining, reset and retry-after. */
module Decisions {

  /** Times and durations are in ticks. */
  datatype RateLimitResult =
    | Limited(remaining: int, reset: int, retryAfter: int)
    | Success(remaining: int, reset: int)

}
