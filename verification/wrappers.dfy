/** Optional values and results: an optional value (a Go pointer that may be nil)
    and a result that is either a value or an error message (Go's `(T, error)` pair). */
module Wrappers {

  /** An optional value; `None` plays the role of a nil pointer. */
  datatype Option<+T> = None | Some(value: T)

  /** Either a value or an error; `Failure` carries the error's message. */
  datatype Result<+R, +E> = Success(value: R) | Failure(error: E)
}
