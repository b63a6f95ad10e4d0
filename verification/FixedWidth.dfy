/** Machine integers: sizes, bytes and two's-complement reduction. */
module FixedWidth {
  const TWO24 := 0x100_0000
  const TWO31 := 0x8000_0000
  const TWO32 := 0x1_0000_0000
  const TWO47 := 0x8000_0000_0000
  const TWO48 := 0x1_0000_0000_0000
  const TWO57 := 0x200_0000_0000_0000
  const TWO63 := 0x8000_0000_0000_0000
  const TWO64 := 0x1_0000_0000_0000_0000

  type Byte = b: int | 0 <= b < 256
  type Int64 = x: int | -0x8000_0000_0000_0000 <= x < 0x8000_0000_0000_0000

  function WrapInt64(x: int): Int64 {
    (x + TWO63) % TWO64 - TWO63
  }

  function WrapInt32(x: int): int {
    (x + TWO31) % TWO32 - TWO31
  }

  /** Wrapping gives the one number of the width that differs by a multiple of 2^64, or 2^32. */
  lemma WrapIsCongruent(x: int, k: int)
    ensures -0x8000_0000 <= WrapInt32(x) < 0x8000_0000
    ensures WrapInt64(x) == x + 0x1_0000_0000_0000_0000 * k <==>
            -0x8000_0000_0000_0000 <= x + 0x1_0000_0000_0000_0000 * k < 0x8000_0000_0000_0000
    ensures WrapInt32(x) == x + 0x1_0000_0000 * k <==> -0x8000_0000 <= x + 0x1_0000_0000 * k < 0x8000_0000
  {
  }
}
