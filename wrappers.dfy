/** Failure-compatible wrappers shared by the modules of this model. */
module Wrappers {

  /** Python's `None` / a present value. */
  datatype Option<T> = None | Some(value: T)

  /** A value, or the error the source raises instead of returning one. */
  datatype Result<T, E> = Success(value: T) | Failure(error: E)
}
