/** Exact-arithmetic stand-ins for the `f64` helpers the source uses. */
module Numeric {

  /** `f64::min` on values that are never NaN. */
  function Min(a: real, b: real): (r: real)
    ensures r <= a && r <= b && (r == a || r == b)
  {
    if b < a then b else a
  }

  /** `f64::max` on values that are never NaN. */
  function Max(a: real, b: real): (r: real)
    ensures r >= a && r >= b && (r == a || r == b)
  {
    if b > a then b else a
  }

  /** `x.fract() == 0.0`: the value is a whole number. */
  predicate IsWhole(x: real) {
    x.Floor as real == x
  }
}
