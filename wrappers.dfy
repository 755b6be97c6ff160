/** Optional values and results, standing in for Hudi's Option and for exceptions. */
module Wrappers {

  /** Hudi's `Option`: a present value or absence (Java `null`). */
  datatype Option<+T> = None | Some(value: T)

  /** The outcome of an operation that may throw. */
  datatype Result<+T, +E> = Ok(value: T) | Err(error: E)
}
