/** Optional values and results with an error, as the models and libraries below return them. */
module Wrappers {

  /** `null`/`undefined` versus a present value. */
  datatype Option<+T> = None | Some(value: T)

  /** A value, or the error a library call throws instead. */
  datatype Result<+T, +E> = Success(value: T) | Failure(error: E)
}
