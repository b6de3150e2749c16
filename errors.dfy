/** Failures of the scheduler's control surface. */
module Errors {

  datatype SchedulerError =
    /** `checkRate` rejected a rate outside [MIN_RATE_MS, MAX_RATE_MS]. */
    | RateOutOfRange(value: real)
    /** `setRate` called `close()` on a timer handle that is null. */
    | NullTimer

  /** The result of an operation that returns nothing or throws. */
  datatype Outcome = Pass | Fail(error: SchedulerError)

  datatype Result<T> = Success(value: T) | Failure(error: SchedulerError)
}
