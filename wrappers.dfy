/** Option and Result, the failure-carrying values of this model. */
module Wrappers {

  /** A value that may be absent: what a Python call that can raise ValueError yields here. */
  datatype Option<+T> = None | Some(value: T)

  /** Either a value or the error the Python code would raise (and report) instead. */
  datatype Result<+T, +E> = Success(value: T) | Failure(error: E)
}
