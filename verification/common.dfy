/** Small shared vocabulary: optional values (the model's stand-in for
    Python's `None`), integer absolute value, and the unit interval. */
module Common {

  /** `None` where the source returns or stores `None`; `Some(v)` otherwise. */
  datatype Option<+T> = None | Some(value: T)

  function Abs(x: int): nat {
    if x < 0 then -x else x
  }

  /** `x` lies in the closed interval [0, 1]. */
  predicate InUnit(x: real) {
    0.0 <= x <= 1.0
  }
}
