/** Fixed-width integer bounds shared by the codec and the node pool. */
module Widths {

  /** 2^64: the number of distinct 64-bit patterns. */
  const TWO_TO_THE_64: int := 0x1_0000_0000_0000_0000

  /** Go's uint64. */
  newtype uint64 = x: int | 0 <= x < 0x1_0000_0000_0000_0000
}
