/** Failure-compatible wrappers shared by every module of the model. */
module Wrappers {

  /** A value that may be missing: pandas' NaN/NaT/None, or an absent result. */
  datatype Option<+T> = None | Some(value: T)

  /** The outcome of an operation that can raise. */
  datatype Result<+R, +E> = Success(value: R) | Failure(error: E)
}
