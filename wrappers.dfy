/** Optional values and results with an error, shared by the back end and the front end. */
module Wrappers {

  /** A value that may be absent: JavaScript's `null`/`undefined`, a missing JSON key. */
  datatype Option<+T> = None | Some(value: T)

  /** The outcome of an operation that either returns a value or raises an error. */
  datatype Result<+T, +E> = Success(value: T) | Failure(error: E)
}
