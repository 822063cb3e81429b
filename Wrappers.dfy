/** Failure-carrying results shared by the whole model. */
module Wrappers {

  datatype Option<T> = None | Some(value: T)

  /** A Go `(value, error)` pair where exactly one side is meaningful. */
  datatype Result<T, E> = Success(value: T) | Failure(error: E)
}
