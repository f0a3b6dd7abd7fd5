/** Failure-compatible result types shared by every module of the model. */
module Wrappers {

  /** A value that may be absent; the model's rendering of Python's `None`. */
  datatype Option<+T> = None | Some(value: T)

  /** Either a value or an error code; the model's rendering of an error flag or a raised exception. */
  datatype Result<+R, +E> = Success(value: R) | Failure(error: E)
}
