/** Failure-compatible wrappers shared by the other modules. */
module Wrappers {

  /** A value that may be absent; JavaScript's `undefined` is `None`. */
  datatype Option<+T> = None | Some(value: T)

  /** The outcome of a step that may throw. */
  datatype Result<+R, +E> = Success(value: R) | Failure(error: E)
}
