/** Failure-carrying values used in place of Python's `None` returns and raised exceptions. */
module Wrappers {

  /** `None` stands for Python's `None` (or for a call that raised). */
  datatype Option<+T> = None | Some(value: T)

  /** The outcome of a step that may raise: `Failure` carries what was raised. */
  datatype Result<+T, +E> = Success(value: T) | Failure(error: E)
}
