/** Failure-compatible wrappers shared by the other modules. */
module Wrappers {

  /** A value that may be missing. */
  datatype Option<+T> = None | Some(value: T)

  /** The outcome of a step that either yields a value or stops the run with an error. */
  datatype Result<+T, +E> = Success(value: T) | Failure(error: E)
}
