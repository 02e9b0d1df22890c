/** Optional values and results, standing for Python's None and for raised exceptions. */
module Wrappers {

  datatype Option<+T> = None | Some(value: T)

  datatype Result<+R, +E> = Success(value: R) | Failure(error: E)

  /** The result of a check that either passes or raises an error. */
  datatype Outcome<+E> = Pass | Fail(error: E)
}
