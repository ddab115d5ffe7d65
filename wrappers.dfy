/** Option and Result, the failure-carrying wrappers used across the codec. */
module Wrappers {
  datatype Option<+T> = None | Some(value: T)

  /** A Ruby call either returns a value or raises an error. */
  datatype Result<+R, +E> = Success(value: R) | Failure(error: E)
}
