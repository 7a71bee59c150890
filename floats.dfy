/**
 * Double-precision values as the pipeline compares them.  The value itself is
 * abstract (a real number for a finite double); what matters is how the two
 * languages involved compare the special values against a constant.
 */
module Floats {

  /** A parsed double: a finite value, an infinity, or not-a-number. */
  datatype Float = Finite(value: real) | Infinity(negative: bool) | NaN

  /** `x < c` for a finite constant `c`, in Python and in PostgreSQL alike: NaN is never below anything. */
  predicate Below(x: Float, c: real)
  {
    match x
    case Finite(v) => v < c
    case Infinity(negative) => negative
    case NaN => false
  }

  /** Python's `x > c` for a finite constant `c`: every comparison with NaN is false. */
  predicate PyAbove(x: Float, c: real)
  {
    match x
    case Finite(v) => v > c
    case Infinity(negative) => !negative
    case NaN => false
  }

  /** PostgreSQL's float8 `x > c` for a finite constant `c`: NaN sorts above every other value. */
  predicate SqlAbove(x: Float, c: real)
  {
    match x
    case Finite(v) => v > c
    case Infinity(negative) => !negative
    case NaN => true
  }
}
