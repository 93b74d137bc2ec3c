/** Bytes, and the results of operations that may raise an error. */
module Bytes {
  type Byte = b: int | 0 <= b < 0x100

  datatype Result<+T> = Success(value: T) | Failure(message: string)

  datatype Option<+T> = None | Some(value: T)
}
