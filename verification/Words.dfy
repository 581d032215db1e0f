/** The machine words the source computes with, and their arithmetic at the edges. */
module Words {

  const U16_SIZE: nat := 0x1_0000
  const U32_SIZE: nat := 0x1_0000_0000
  const U64_SIZE: nat := 0x1_0000_0000_0000_0000
  const MAX_U32: nat := 0xFFFF_FFFF
  const MAX_U64: nat := 0xFFFF_FFFF_FFFF_FFFF

  type u32 = x: nat | x <= MAX_U32

  type u64 = x: nat | x <= MAX_U64

  /** `saturating_add` of 32-bit values. */
  function SaturatingAdd32(a: nat, b: nat): u32 {
    if a + b <= MAX_U32 then a + b else MAX_U32
  }

  /** `wrapping_sub` of 32-bit values. */
  function WrappingSub32(a: nat, b: nat): (d: nat)
    requires a < U32_SIZE && b < U32_SIZE
    ensures d < U32_SIZE
  {
    if a >= b then a - b else a + U32_SIZE - b
  }
}
