/** Optional values and results with an error, as returned by the model's partial operations. */
module Wrappers {

  /** A value that may be absent: JavaScript's `undefined`/`null` returned in place of a result. */
  datatype Option<+T> = None | Some(value: T)

  /** A computation that either succeeds or raises (JavaScript `throw`) the given error. */
  datatype Result<+T, +E> = Success(value: T) | Failure(error: E)
}
