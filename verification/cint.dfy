/**
 * C++ integer semantics the calendar code relies on.
 *
 * Dafny integers are unbounded and its `/` and `%` are Euclidean. The C++ code
 * uses fixed-width types, `/` and `%` that truncate toward zero, right shifts
 * of signed values, bit masks and modular conversions into narrower unsigned
 * types and bit fields. Each of those is written out here once.
 */
module CInt {

  const TWO_4: int := 0x10
  const TWO_5: int := 0x20
  const TWO_8: int := 0x100
  const TWO_16: int := 0x1_0000
  const TWO_27: int := 0x800_0000
  const TWO_28: int := 0x1000_0000
  const TWO_32: int := 0x1_0000_0000
  const TWO_63: int := 0x8000_0000_0000_0000
  const TWO_64: int := 0x1_0000_0000_0000_0000

  /** `unsigned char` */
  type UChar = x: int | 0 <= x < 0x100
  /** `unsigned short` */
  type UShort = x: int | 0 <= x < 0x1_0000
  /** `unsigned int` (32 bits) */
  type UInt = x: int | 0 <= x < 0x1_0000_0000
  /** `signed int` (32 bits) */
  type Int = x: int | -0x8000_0000 <= x < 0x8000_0000
  /** `int64_t` */
  type Int64 = x: int | -0x8000_0000_0000_0000 <= x < 0x8000_0000_0000_0000

  const INT_MIN: Int := -0x8000_0000
  const INT64_MAX: Int64 := 0x7FFF_FFFF_FFFF_FFFF
  const UINT_MAX: UInt := 0xFFFF_FFFF

  /** Conversion of any integer to an unsigned type or bit field of `bits` bits: reduction modulo 2^bits. */
  function Wrap(v: int, modulus: int): (r: int)
    requires modulus > 0
    ensures 0 <= r < modulus
    ensures 0 <= v < modulus ==> r == v
  {
    v % modulus
  }

  /** C++ `a / b` for b > 0: the quotient truncated toward zero. */
  function Quot(a: int, b: int): (q: int)
    requires b > 0
    ensures a >= 0 ==> q == a / b
    ensures a < 0 ==> q == -((-a) / b)
    ensures a >= 0 ==> 0 <= a - q * b < b
    ensures a < 0 ==> -b < a - q * b <= 0
  {
    if a >= 0 then a / b else -((-a) / b)
  }

  /** C++ `a % b` for b > 0: the remainder takes the sign of a. */
  function Rem(a: int, b: int): (r: int)
    requires b > 0
  {
    a - Quot(a, b) * b
  }

  /**
   * `v & (2^k - 1)` on a two's-complement value: the low k bits, which is the
   * Euclidean remainder modulo 2^k also for negative v.
   */
  function LowBits(v: int, modulus: int): (r: int)
    requires modulus > 0
    ensures 0 <= r < modulus
    ensures r == 0 <==> v % modulus == 0
  {
    v % modulus
  }

  /** Conversion of a `uint64_t` to `int64_t`: two's complement, so words from 2^63 on become negative. */
  function ToInt64(v: int): (r: Int64)
    requires 0 <= v < TWO_64
    ensures (v - r) % TWO_64 == 0
    ensures v < TWO_63 <==> r >= 0
  {
    if v < TWO_63 then v else v - TWO_64
  }

  /** `v >> k` on a signed value (arithmetic shift): division by 2^k rounded down. */
  function Shr(v: int, divisor: int): (r: int)
    requires divisor > 0
    ensures r * divisor <= v < r * divisor + divisor
  {
    v / divisor
  }
}
