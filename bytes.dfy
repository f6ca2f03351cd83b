/**
 * Fixed-width values and little-endian reads from physical memory.
 *
 * Early boot code reads firmware tables straight out of physical memory.
 * Memory is modelled as a total map from addresses to bytes, so every
 * read the code performs is defined; a read never changes memory.
 */
module Bytes {

  type byte = x: int | 0 <= x < 0x100
  type u16 = x: int | 0 <= x < 0x1_0000
  type u32 = x: int | 0 <= x < 0x1_0000_0000
  type u64 = x: int | 0 <= x < 0x1_0000_0000_0000_0000

  const U32_MODULUS: nat := 0x1_0000_0000
  const U64_MODULUS: nat := 0x1_0000_0000_0000_0000

  /** Physical memory: the byte stored at every address. */
  type Memory = nat -> byte

  /** The little-endian 16-bit value stored at `a`, `a + 1`. */
  function LE16(mem: Memory, a: nat): u16
  {
    mem(a) + 0x100 * mem(a + 1)
  }

  /** The little-endian 32-bit value stored at `a` .. `a + 3`. */
  function LE32(mem: Memory, a: nat): u32
  {
    LE16(mem, a) + 0x1_0000 * LE16(mem, a + 2)
  }

  /** The little-endian 64-bit value stored at `a` .. `a + 7`. */
  function LE64(mem: Memory, a: nat): u64
  {
    LE32(mem, a) + 0x1_0000_0000 * LE32(mem, a + 4)
  }
}
