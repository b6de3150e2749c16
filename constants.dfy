/** The constants the scheduler imports from its `constants` module.
    Their values are not part of this model. `BASE_PERIOD_MS`, `MIN_RATE_MS`
    and `RATE_SPAN` are declared without a value, and `MAX_RATE_MS` is
    `MIN_RATE_MS + RATE_SPAN`; the types of the three carry the only facts
    the model relies on, `BASE_PERIOD_MS > 0` and
    `0 < MIN_RATE_MS <= MAX_RATE_MS`. */
module Constants {

  type Positive = r: real | r > 0.0 witness 1.0
  type NonNegative = r: real | r >= 0.0 witness 0.0

  /** Reference period, in milliseconds, that turns a rate into an interval. */
  const BASE_PERIOD_MS: Positive

  /** Smallest accepted rate, in tasks per second. */
  const MIN_RATE_MS: Positive

  /** Width of the accepted range of rates; MAX_RATE_MS is defined from it
      so that the range is never empty. */
  const RATE_SPAN: NonNegative

  /** Largest accepted rate, in tasks per second. */
  const MAX_RATE_MS: real := MIN_RATE_MS + RATE_SPAN

  /** Rate used when the constructor is given none. */
  const DEFAULT_RATE: real := 1.0

  function Max(a: real, b: real): (m: real)
    ensures m >= a && m >= b
    ensures m == a || m == b
  {
    if a >= b then a else b
  }
}
