/** Fixed-width types of the C sources. */
module Bytes {
  type byte = x: int | 0 <= x < 0x100
  type u16 = x: int | 0 <= x < 0x1_0000
  type u32 = x: int | 0 <= x < 0x1_0000_0000

  const TWO_POW_32: int := 0x1_0000_0000

  function Min(a: int, b: int): int {
    if a <= b then a else b
  }

  function Max(a: int, b: int): int {
    if a <= b then b else a
  }

  /** Conversion of any integer to a C `uint32_t`: reduction modulo 2^32. */
  function ToU32(x: int): u32 {
    x % TWO_POW_32
  }
}
