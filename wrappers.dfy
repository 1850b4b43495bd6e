/** Option and Result, used for pandas nulls and for the errors the dashboard raises. */
module Wrappers {

  /** `None` stands for a missing cell (NaN in the table). */
  datatype Option<+T> = None | Some(value: T)

  datatype Result<+T, +E> = Success(value: T) | Failure(error: E)
}
