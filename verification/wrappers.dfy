/** Failure-carrying wrappers shared by the other modules. */
module Wrappers {

  /** A value that may be absent: JavaScript's `null` / `undefined`. */
  datatype Option<+T> = None | Some(value: T)

  /** A value or the error a thrown exception would carry. */
  datatype Result<+T, +E> = Success(value: T) | Failure(error: E)
}
