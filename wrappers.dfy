/** Optional values and results with an error path, shared by the other modules. */
module Wrappers {

  /** Python's `None` or a present value. */
  datatype Option<T> = None | Some(value: T)

  /** A value, or the error the source raises or signals instead. */
  datatype Result<T, E> = Success(value: T) | Failure(error: E)
}
