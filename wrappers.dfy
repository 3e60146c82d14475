/** Failure-carrying results used across the solvers. */
module Wrappers {

  /** A value that may be missing (Python's `None`). */
  datatype Option<T> = None | Some(value: T)

  /** The outcome of a check that can reject its input. */
  datatype Result<T, E> = Success(value: T) | Failure(error: E)
}
