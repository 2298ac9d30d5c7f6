/** Option and Result values standing in for the source's `null` and thrown errors. */
module Wrappers {

  /** A value that may be absent (the source's `null` / `undefined`). */
  datatype Option<+T> = None | Some(value: T)

  /** The outcome of an operation that the source may abort by throwing. */
  datatype Result<+T, +E> = Success(value: T) | Failure(error: E)
}
