/** Option and Result, the shapes in which the Go code's `(value, error)` pairs are modelled. */
module Wrappers {

  datatype Option<+T> = None | Some(value: T)

  datatype Result<+T, +E> = Success(value: T) | Failure(error: E)
}
