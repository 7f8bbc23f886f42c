/** C integer widths used by the simulated sensor, C's truncating division,
    and an Option type for outcomes the C code leaves undefined. */
module CTypes {

  const INT32_MIN: int := -0x8000_0000
  const INT32_MAX: int := 0x7fff_ffff

  /** The kernel's `int`. */
  type int32 = x: int | INT32_MIN <= x <= INT32_MAX

  /** The kernel's `u32`, as returned by the random number source. */
  type uint32 = x: int | 0 <= x < 0x1_0000_0000

  /** The kernel's `u64`. */
  type uint64 = x: int | 0 <= x < 0x1_0000_0000_0000_0000

  datatype Option<T> = None | Some(value: T)

  function Min(a: int, b: int): int {
    if a <= b then a else b
  }

  /** Assigning a `u32` to an `int`: the value is kept modulo 2^32 (GCC's
      documented behaviour for this implementation-defined conversion). */
  function U32ToInt(x: uint32): (r: int32)
    ensures (x - r) % 0x1_0000_0000 == 0
    ensures x <= INT32_MAX <==> r >= 0
  {
    if x <= INT32_MAX then x else x - 0x1_0000_0000
  }

  /** C's `/` on `int`: the quotient is truncated toward zero. */
  function CDiv(a: int, b: int): (q: int)
    requires b > 0
    ensures a >= 0 ==> q >= 0 && q * b <= a < q * b + b
    ensures a < 0 ==> q <= 0 && q * b - b < a <= q * b
  {
    if a >= 0 then a / b else -((-a) / b)
  }

  /** C's `%` on `int`: the remainder takes the sign of the dividend. */
  function CMod(a: int, b: int): (m: int)
    requires b > 0
    ensures a == CDiv(a, b) * b + m
    ensures a >= 0 ==> 0 <= m < b
    ensures a < 0 ==> -b < m <= 0
  {
    a - CDiv(a, b) * b
  }
}
