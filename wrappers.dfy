/** Option and Result, plus the error value that Go's `error` returns carry. */
module Wrappers {

  datatype Option<+T> = None | Some(value: T)

  datatype Result<+T, +E> = Success(value: T) | Failure(error: E)

  /** An opaque Go `error`: only its message is kept. */
  datatype Error = Error(message: string)
}
