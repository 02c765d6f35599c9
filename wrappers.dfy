/** Option and Result, as used throughout the model. */
module Wrappers {

  /** An optional value; for accumulators of minima, None stands for "infinity". */
  datatype Option<+T> = None | Some(value: T)

  /** The outcome of an operation that can fail where the original raises. */
  datatype Result<+R, +E> = Success(value: R) | Failure(error: E)
}
