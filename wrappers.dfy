/** Option and Result, the shapes in which the model reports absence and failure. */
module Wrappers {

  datatype Option<+T> = None | Some(value: T)

  /** A value, or the error a promise of the source would reject with. */
  datatype Result<+T, +E> = Success(value: T) | Failure(error: E)
}
