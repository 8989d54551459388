/** The `Option` and `Result` values used across the polls model: `Option` for
    values Python writes as "maybe None", `Result` for operations that can
    raise. */
module Wrappers {

  /** A value that may be absent (Python `None`). */
  datatype Option<+T> = None | Some(value: T)

  /** The outcome of an operation that may raise an exception. */
  datatype Result<+R, +E> = Success(value: R) | Failure(error: E)
}
