/** The failure-compatible result type used for operations that can raise. */
module Wrappers {

  datatype Result<+T, +E> = Success(value: T) | Failure(error: E)
}
