/** The part of Rust's standard vocabulary that the model uses: `Option`,
    `Result` and the fixed-width integer types, as subsets of `int`. */
module Primitives {

  datatype Option<+T> = None | Some(value: T)

  datatype Result<+T, +E> = Ok(value: T) | Err(error: E)

  const I32Min: int := -0x8000_0000
  const I32Max: int := 0x7FFF_FFFF

  type U8 = x: int | 0 <= x < 0x100
  type I32 = x: int | -0x8000_0000 <= x < 0x8000_0000
  type I64 = x: int | -0x8000_0000_0000_0000 <= x < 0x8000_0000_0000_0000
  type U64 = x: int | 0 <= x < 0x1_0000_0000_0000_0000
}
