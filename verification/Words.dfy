/** The 32-bit words the kernel computes with.
    Addition and subtraction wrap, as C's unsigned int does. */
module Words {
  const TWO32: int := 0x1_0000_0000

  type u32 = x: int | 0 <= x < 0x1_0000_0000

  const MAX_UNSIGNED_INT: u32 := 0xFFFF_FFFF

  function Add32(a: u32, b: u32): (r: u32) {
    (a + b) % TWO32
  }

  function Sub32(a: u32, b: u32): (r: u32) {
    (a - b) % TWO32
  }

  function Min(a: int, b: int): int {
    if a < b then a else b
  }

  function Max(a: int, b: int): int {
    if a > b then a else b
  }
}
