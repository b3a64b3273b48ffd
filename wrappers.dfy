/** Values and C arithmetic shared by every module of the model. */
module Wrappers {
  /** A value that may be absent: a NULL pointer, a missing hash entry, nil. */
  datatype Option<T> = None | Some(value: T)

  /** C division of integers, truncating toward zero. */
  function CDiv(a: int, b: int): (q: int)
    requires b > 0
    ensures a >= 0 ==> q == a / b
    ensures a < 0 ==> q <= 0 && a <= q * b < a + b
  {
    if a >= 0 then a / b else -((-a) / b)
  }
}
