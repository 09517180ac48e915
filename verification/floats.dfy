/**
  Numeric column values. The data frames of the estimator hold floats, and a
  missing or undefined number is NaN, which arithmetic silently propagates.
  Here a number is a `real` and NaN is made explicit: a column value is
  `Some(x)` for a number and `None` for NaN.
 */
module Floats {
  import opened Wrappers

  /** One cell of a numeric column; `None` stands for NaN. */
  type Value = Option<real>

  /** a + b, NaN when either operand is NaN. */
  function Add(a: Value, b: Value): Value
  {
    if a.Some? && b.Some? then Some(a.value + b.value) else None
  }

  /** a * b, NaN when either operand is NaN. */
  function Mul(a: Value, b: Value): Value
  {
    if a.Some? && b.Some? then Some(a.value * b.value) else None
  }

  /** a / b, NaN when either operand is NaN; a zero divisor gives no real number (NaN or an infinity). */
  function Div(a: Value, b: Value): Value
  {
    if a.Some? && b.Some? && b.value != 0.0 then Some(a.value / b.value) else None
  }

  /**
    The natural logarithm of a cell. `ln` itself is left uninterpreted (it is a
    parameter); the logarithm of zero or of a negative number is not a real number.
   */
  function Log(ln: real -> real, a: Value): Value
  {
    if a.Some? && a.value > 0.0 then Some(ln(a.value)) else None
  }

  /** One step of a NaN-skipping sum: a NaN cell contributes nothing. */
  function AddSkipNaN(acc: real, a: Value): real
  {
    if a.Some? then acc + a.value else acc
  }
}
