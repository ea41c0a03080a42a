/** Value types shared by every part of the model. */
module Common {

  /** An unsigned 8-bit value: one byte of a C `uint8_t` buffer or of a `std::string`. */
  newtype byte = x: int | 0 <= x < 256

  /** Absent or present: models a pointer that may be NULL or a lookup that may miss. */
  datatype Option<T> = None | Some(value: T)

  function Max(a: int, b: int): (m: int)
    ensures m >= a && m >= b && (m == a || m == b)
  {
    if a >= b then a else b
  }

  function Min(a: int, b: int): (m: int)
    ensures m <= a && m <= b && (m == a || m == b)
  {
    if a <= b then a else b
  }

  /** `std::max(std::min(x, hi), lo)`: clamp into [lo, hi]. */
  function ClampTo(x: int, lo: int, hi: int): (r: int)
    requires lo <= hi
    ensures lo <= r <= hi
    ensures lo <= x <= hi ==> r == x
    ensures x < lo ==> r == lo
    ensures x > hi ==> r == hi
  {
    Max(Min(x, hi), lo)
  }

  function AbsReal(x: real): (r: real)
    ensures r >= 0.0 && (r == x || r == -x)
  {
    if x < 0.0 then -x else x
  }
}
