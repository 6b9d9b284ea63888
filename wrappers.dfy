/** Small helpers shared by every module: an optional value and the byte type. */
module Wrappers {

  /** A value that may be absent (Rust's `Option`). */
  datatype Option<+T> = None | Some(value: T)

  /** An 8-bit unsigned integer (Rust's `u8`). */
  newtype byte = x: int | 0 <= x < 256
}
