/** Failure-carrying values: Go's `(T, error)` pairs and nil-able results. */
module Wrappers {

  /** A value that may be absent (a nil pointer, a nil slice, an unset error). */
  datatype Option<+T> = None | Some(value: T)

  /** The outcome of an operation that either yields a value or fails. */
  datatype Result<+T, +E> = Success(value: T) | Failure(error: E)
}
