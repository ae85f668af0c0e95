/** The two C math functions the numeric core relies on, over exact reals:
    `fabs` and `round` (which rounds halves away from zero). */
module Reals {

  /** Absolute value, as `fabs`. */
  function Abs(x: real): (r: real)
    ensures r >= 0.0 && (r == x || r == -x)
  {
    if x < 0.0 then -x else x
  }

  /** Nearest integer, halves rounded away from zero, as C's `round`. */
  function Round(x: real): (n: int)
    ensures Abs(x - n as real) <= 0.5
    ensures Abs(x - n as real) == 0.5 ==> Abs(n as real) > Abs(x)
    ensures x >= 0.0 ==> n >= 0
    ensures x <= 0.0 ==> n <= 0
  {
    if x >= 0.0 then (x + 0.5).Floor else -((-x + 0.5).Floor)
  }
}
