// Result types and machine widths shared by the other modules.
module Basics {
  datatype Option<+T> = None | Some(value: T)

  datatype Result<+T, +E> = Ok(value: T) | Err(error: E)

  const U64_MAX := 0xFFFF_FFFF_FFFF_FFFF

  type U64 = n: int | 0 <= n <= U64_MAX

  const U32_RANGE := 0x1_0000_0000

  type U32 = n: int | 0 <= n < U32_RANGE

  type Byte = b: int | 0 <= b < 256
}
