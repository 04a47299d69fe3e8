/** Failure-carrying values used throughout the model: `Option` for a value
    that may be absent (a JavaScript `undefined`), `Result` for an operation
    that either returns a value or throws. */
module Wrappers {

  datatype Option<+T> = None | Some(value: T)

  datatype Result<+R, +E> = Success(value: R) | Failure(error: E)
}
