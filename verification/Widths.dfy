/** Machine integers. */
module Widths {

  const TWO_32: nat := 0x1_0000_0000
  const TWO_56: nat := 0x100_0000_0000_0000
  const TWO_64: nat := 0x1_0000_0000_0000_0000

  type byte = x: int | 0 <= x < 256
  type u32 = x: int | 0 <= x < 0x1_0000_0000
  type u64 = x: int | 0 <= x < 0x1_0000_0000_0000_0000
}
