/** Unsigned 64-bit arithmetic as C performs it on `uint64_t`: every
    result is reduced modulo 2^64. */
module Arith64 {

  const TWO_TO_THE_64: int := 0x1_0000_0000_0000_0000
  const UINT64_MAX: int := 0xFFFF_FFFF_FFFF_FFFF

  /** A value of a C `uint64_t` (also `ngtcp2_tstamp`, `ngtcp2_duration`
      and, on the 64-bit targets modelled here, `size_t`). */
  type U64 = x: int | 0 <= x <= 0xFFFF_FFFF_FFFF_FFFF

  /** `a + b` on uint64_t. */
  function Add(a: U64, b: U64): (r: U64)
    ensures a + b <= UINT64_MAX ==> r == a + b
    ensures a + b > UINT64_MAX ==> r == a + b - TWO_TO_THE_64
  {
    (a + b) % TWO_TO_THE_64
  }

  /** `a - b` on uint64_t: wraps around when `b > a`. */
  function Sub(a: U64, b: U64): (r: U64)
    ensures b <= a ==> r == a - b
    ensures a < b ==> r == a - b + TWO_TO_THE_64
  {
    (a - b) % TWO_TO_THE_64
  }

  /** `a * b` on uint64_t. */
  function Mul(a: U64, b: U64): (r: U64)
    ensures a * b <= UINT64_MAX ==> r == a * b
  {
    (a * b) % TWO_TO_THE_64
  }

  /** `a << 10` on uint64_t: the bits shifted past bit 63 are lost. */
  function Shl10(a: U64): (r: U64)
    ensures a < TWO_TO_THE_64 / 1024 ==> r == a * 1024
    ensures r % 1024 == 0
  {
    (a * 1024) % TWO_TO_THE_64
  }
}
