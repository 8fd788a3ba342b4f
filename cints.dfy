/** The C integer behaviour the converter relies on: 32-bit unsigned pixels,
    32-bit signed output, the unsigned-to-signed conversion of a pixel value,
    and C's truncating division. */
module CInts {

  const TWO31: int := 0x8000_0000
  const TWO32: int := 0x1_0000_0000
  const I32Max: int := 0x7FFF_FFFF

  /** `unsigned int`, the raw pixel type read from the container. */
  type u32 = x: int | 0 <= x < 0x1_0000_0000

  /** `signed int`, the type of the classified pixels and of the mask. */
  type i32 = x: int | -0x8000_0000 <= x < 0x8000_0000

  /** Converting an `unsigned int` to `signed int` keeps the bit pattern:
      values of 2^31 and above come out negative. */
  function ToSigned32(u: u32): (r: i32)
    ensures 0 <= r ==> r == u
    ensures r < 0 ==> r + TWO32 == u
    ensures (r == u) <==> u < TWO31
  {
    if u < TWO31 then u else u - TWO32
  }

  /** Unsigned subtraction `a - b` on `unsigned int`, which wraps modulo 2^32. */
  function SubU32(a: u32, b: u32): (r: u32)
    ensures b <= a ==> r == a - b
    ensures a < b ==> r == a - b + TWO32
  {
    (a - b + TWO32) % TWO32
  }

  /** C's `/` on `int`: the quotient is truncated toward zero, so the
      remainder `a - q * b` lies between 0 and the dividend. */
  function CDiv(a: int, b: int): (q: int)
    requires b > 0
    ensures 0 <= a ==> q * b <= a < q * b + b && q == a / b
    ensures a < 0 ==> q * b - b < a <= q * b
  {
    if a >= 0 then a / b else -((-a) / b)
  }

  /** C's `%` on `int`: the remainder takes the sign of the dividend. */
  function CMod(a: int, b: int): (r: int)
    requires b > 0
    ensures 0 <= a ==> 0 <= r < b
    ensures a < 0 ==> -b < r <= 0
    ensures CDiv(a, b) * b + r == a
  {
    a - CDiv(a, b) * b
  }
}
