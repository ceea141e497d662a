/** Result types shared by every module, and the widths of the source's integers. */
module Wrappers {

  datatype Option<+T> = None | Some(value: T)

  datatype Result<+T, +E> = Ok(value: T) | Err(error: E)

  // A byte of the source (`u8`).
  type byte = b: int | 0 <= b < 256

  type Bytes = seq<byte>

  // The largest `u64`.
  const MAX_U64: nat := 0xFFFF_FFFF_FFFF_FFFF

  const NEWLINE: byte := 10
  const CARRIAGE_RETURN: byte := 13
}
