/** Absent values and error results shared by the pipeline stages. */
module Wrappers {

  /** A value that may be absent: pandas' NaN/NaT in a column. */
  datatype Option<+T> = None | Some(value: T)

  /** The outcome of an operation that may raise. */
  datatype Result<+R, +E> = Success(value: R) | Failure(error: E)
}
