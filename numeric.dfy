/** Absolute value on reals, shared by the distance test and the speed test. */
module Numeric {
  function Abs(x: real): (r: real)
    ensures r >= 0.0 && (r == x || r == -x)
  {
    if x < 0.0 then -x else x
  }
}
