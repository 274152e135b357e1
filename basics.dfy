/** Machine-level value types shared by every part of the calculator protocol. */
module Basics {

  /** One octet as it travels on the wire or sits in a `char` buffer. */
  newtype byte = x: int | 0 <= x < 0x100

  /** A C `int` on the platforms the programs target: 32-bit two's complement. */
  newtype int32 = x: int | -0x8000_0000 <= x < 0x8000_0000

  const INT32_MIN: int32 := -0x8000_0000
  const INT32_MAX: int32 := 0x7fff_ffff

  /** 2^32, the modulus of 32-bit wraparound. */
  const TWO32: int := 0x1_0000_0000

  datatype Option<T> = None | Some(value: T)
}
