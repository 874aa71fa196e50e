/** The optional value used wherever the app reads something that may be
    absent (`undefined`, `null`, `NaN`, a key missing from a store). */
module Wrappers {

  datatype Option<T> = None | Some(value: T) {

    /** The wrapped value, or `default` when absent (the `x ?? default` idiom). */
    function GetOr(default: T): T {
      match this
      case Some(v) => v
      case None => default
    }
  }

  function Min(a: int, b: int): int {
    if a <= b then a else b
  }

  function Max(a: int, b: int): int {
    if a >= b then a else b
  }

  /** How a quotient by a positive divisor compares with 0 and 1; the app's
      ratios (percentages, averages, rates) all rest on these facts. */
  lemma DivBounds(a: real, b: real)
    requires b > 0.0
    ensures a / b >= 0.0 <==> a >= 0.0
    ensures a / b <= 1.0 <==> a <= b
    ensures a / b >= 1.0 <==> a >= b
    ensures a / b == 1.0 <==> a == b
    ensures a / b == 0.0 <==> a == 0.0
  {
    assert a / b * b == a;
  }
}
