/** Option and Result, the two failure-carrying shapes the pipeline needs. */
module Wrappers {

  /** Python's "value or None". */
  datatype Option<+T> = None | Some(value: T)

  /** A value, or the reason the run stops (Python raising an exception). */
  datatype Result<+R, +E> = Success(value: R) | Failure(error: E)
}
