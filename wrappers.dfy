/** Failure-compatible result types: `Option` stands for the source's `T | null`
    returns, `Result` for a value or a thrown `Error` message. */
module Wrappers {

  datatype Option<+T> = None | Some(value: T)

  datatype Result<+T, +E> = Success(value: T) | Failure(error: E)

  /** An octet: one element of a byte string, or one channel of an RGBA pixel. */
  type Byte = b: int | 0 <= b < 0x100
}
