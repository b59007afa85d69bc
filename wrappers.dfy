/** Option and Result, used for JavaScript's `undefined` from `find` and for the early returns of the import guard. */
module Wrappers {
  datatype Option<+T> = None | Some(value: T)

  datatype Result<+R, +E> = Success(value: R) | Failure(error: E)
}
