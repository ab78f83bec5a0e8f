/** Failure-compatible wrappers: `Option` for Kotlin's nullable values and
    `Result` for an operation that may end with a thrown exception. */
module Wrappers {

  datatype Option<+T> = None | Some(value: T)

  datatype Result<+T, +E> = Success(value: T) | Failure(error: E)
}
