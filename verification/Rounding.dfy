/** Real numbers cut to integers. */
module Rounding {

  /** Towards zero. */
  function Truncated(x: real): int {
    if x >= 0.0 then x.Floor else -((-x).Floor)
  }
}
