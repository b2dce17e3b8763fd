/** Option and Result, used by the translation client model. */
module Wrappers {

  /** A value that may be absent (a Go `nil` error, a missing fragment). */
  datatype Option<+T> = None | Some(value: T)

  /** Either a value or an error, like Go's `(value, error)` return pair. */
  datatype Result<+R, +E> = Success(value: R) | Failure(error: E)
}
