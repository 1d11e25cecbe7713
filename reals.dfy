/** Real-number helpers shared by both scripts. */
module Reals {

  /** Python's `abs` on a float. */
  function Abs(x: real): (r: real)
    ensures r >= 0.0
    ensures r == x || r == -x
  {
    if x < 0.0 then -x else x
  }
}
