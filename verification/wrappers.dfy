/** Failure-carrying results shared by the whole model. */
module Wrappers {

  /** A value that may be absent: Go's nil pointer, a missing map entry, or NaN. */
  datatype Option<+T> = None | Some(value: T)

  /** The outcome of a Go call returning `(value, error)`. */
  datatype Result<+R, +E> = Success(value: R) | Failure(error: E)
}
