/** Small shared vocabulary: the Rust integer widths the program uses and the
    Option / Result wrappers that stand for Rust's enums of the same name. */
module Prelude {

  datatype Option<+T> = None | Some(value: T)

  datatype Result<+T, +E> = Ok(value: T) | Err(error: E)

  /** Rust `u8`. */
  newtype u8 = x: int | 0 <= x < 0x100

  /** Rust `u16`, the width of a UDP port. */
  newtype u16 = x: int | 0 <= x < 0x1_0000

  /** Rust `i32`, the width of a process exit code. */
  newtype i32 = x: int | -0x8000_0000 <= x < 0x8000_0000
}
