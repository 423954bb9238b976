/** Option and Result, shared by every module of the model. */
module Wrappers {

  /** A value that may be absent (a nil slice or a failed partial decode). */
  datatype Option<+T> = None | Some(value: T)

  /** A value, or the error a Go function would have returned beside a nil value. */
  datatype Result<+T, +E> = Success(value: T) | Failure(error: E)
}
