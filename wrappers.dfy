/** Option and Result, the two stand-ins for Go's nil pointers and `(value, error)` returns. */
module Wrappers {

  /** A value that may be absent; `None` is a nil `*string` field. */
  datatype Option<+T> = None | Some(value: T)

  /** Either a value or the error that stopped its computation. */
  datatype Result<+R, +E> = Success(value: R) | Failure(error: E)
}
