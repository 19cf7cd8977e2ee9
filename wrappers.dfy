/** Option and Result, the failure-carrying values the rest of the model returns. */
module Wrappers {

  /** A value that may be absent (JavaScript's `null` / `undefined`). */
  datatype Option<+T> = None | Some(value: T)

  /** A value or the error that was thrown instead of producing it. */
  datatype Result<+R, +E> = Success(value: R) | Failure(error: E)
}
