/** Shared scalar types and the option type. */
module Bytes {
  /** An unsigned 8-bit value (`uint8_t`). */
  type byte = x: int | 0 <= x < 256

  /** A value that may be absent: a null pointer, or a function pointer that is not set. */
  datatype Option<+T> = None | Some(value: T)

  /** The value an `int` is reduced to when it is stored in a `uint8_t`. */
  function ToByte(x: int): byte {
    x % 256
  }
}
