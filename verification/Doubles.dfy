/** C doubles, with rounding left out: a finite value is a real, and the values isfinite() rejects are
  * kept apart.
  */
module Doubles {
  datatype Double = Finite(value: real) | NaN | PosInfinity | NegInfinity
}
