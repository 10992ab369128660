/** Optional values and error returns shared by every stage of the pipeline. */
module Wrappers {

  /** Python's `None` versus a present value. */
  datatype Option<T> = None | Some(value: T)

  /** A value, or the error an operation raises instead of returning. */
  datatype Result<T, E> = Success(value: T) | Failure(error: E)
}
