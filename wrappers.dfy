/** Option and Result, the two failure-carrying shapes every module here uses. */
module Wrappers {

  /** A value that may be absent: Ruby's nil, JavaScript's undefined. */
  datatype Option<+T> = None | Some(value: T)

  /** The outcome of an operation that can raise: a value or the error raised. */
  datatype Result<+R, +E> = Success(value: R) | Failure(error: E)
}
