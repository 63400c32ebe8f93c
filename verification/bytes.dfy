/** Rust's `u8` and byte vectors (`&[u8]`, `Vec<u8>`). */
module Bytes {

  newtype byte = b: int | 0 <= b < 0x100

  type bytes = seq<byte>
}
