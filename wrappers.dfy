/** Optional values and results with an error, used for Python's `None`
    and for the exceptions the engine raises. */
module Wrappers {

  datatype Option<+T> = None | Some(value: T)

  datatype Result<+T, +E> = Success(value: T) | Failure(error: E)

  /** A check that either passes or fails with an error (a Python call
      that returns `None` or raises). */
  datatype Outcome<+E> = Pass | Fail(error: E)
}
