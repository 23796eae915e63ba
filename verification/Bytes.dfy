/** Bytes, and the two's complement reading of 32-bit words. */
module Bytes {
  type byte = x: int | 0 <= x < 256

  const WORD: nat := 0x1_0000_0000

  predicate IsInt32(v: int) {
    -0x8000_0000 <= v < 0x8000_0000
  }

  /** (uint32_t)v */
  function ToUnsigned(v: int): (n: nat)
    requires IsInt32(v)
    ensures n < WORD
  {
    if v < 0 then v + WORD else v
  }

  /** (int32_t)n */
  function ToSigned(n: nat): (v: int)
    requires n < WORD
    ensures IsInt32(v) && ToUnsigned(v) == n
  {
    if n < 0x8000_0000 then n else n - WORD
  }
}
