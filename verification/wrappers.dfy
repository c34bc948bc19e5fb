/** Failure-carrying results: `Option` for a value that may be absent (a JavaScript
    `null`, `NaN` or a failed decode), `Result` for an operation that may throw. */
module Wrappers {

  datatype Option<+T> = None | Some(value: T)

  datatype Result<+T, +E> = Success(value: T) | Failure(error: E)
}
