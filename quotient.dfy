/**
  The f64 quotient of two integer counts, `a as f64 / b as f64`, as the
  engine computes frequencies and the Index of Coincidence: a finite value,
  or what IEEE 754 division by zero gives. Rounding is not modelled; a
  finite value is the exact rational.
 */
module Quotient {

  datatype Ratio = Value(value: real) | NaN | Infinity

  /**
    A count divided by a (possibly negative) integer: finite exactly when
    the divisor is not 0, and then the value that multiplied back by the
    divisor gives the count; 0 / 0 is NaN and a positive count over 0 is
    infinite.
   */
  function Divide(num: nat, den: int): (r: Ratio)
    ensures r.Value? <==> den != 0
    ensures r.Value? ==> r.value * den as real == num as real
    ensures den == 0 ==> (r == NaN <==> num == 0)
  {
    if den != 0 then Value(num as real / den as real)
    else if num == 0 then NaN
    else Infinity
  }

  /** A count at most its positive divisor gives a finite value in [0, 1]. */
  lemma RatioAtMostOne(a: nat, b: nat)
    requires 0 < b && a <= b
    ensures Divide(a, b) == Value(a as real / b as real)
    ensures 0.0 <= a as real / b as real <= 1.0
  {
  }
}
