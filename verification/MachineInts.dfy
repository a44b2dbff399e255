/** Fixed-width integers of the C sources. Every arithmetic operation on these types is
    checked to stay inside the type, so a verified member never wraps around. */
module MachineInts {

  newtype byte = x: int | 0 <= x < 0x100

  newtype u16 = x: int | 0 <= x < 0x1_0000

  newtype u32 = x: int | 0 <= x < 0x1_0000_0000

  newtype i32 = x: int | -0x8000_0000 <= x < 0x8000_0000

  datatype Option<+T> = None | Some(value: T)

  /** Unsigned 32-bit subtraction as C performs it: modulo 2^32. */
  function WrappingSub(a: u32, b: u32): u32 {
    ((a as int - b as int) % 0x1_0000_0000) as u32
  }

  function Min(a: int, b: int): int {
    if a < b then a else b
  }

  function Max(a: int, b: int): int {
    if a < b then b else a
  }

  /** C++ division of ints: the quotient is truncated towards zero. */
  function TruncDiv(a: int, b: int): int
    requires 0 < b
  {
    if a >= 0 then a / b else -(-a / b)
  }
}
