/** Option and Result, as used for pandas' missing values and for load failures. */
module Wrappers {
  /** `None` stands for a missing cell (NaN / NaT in the data frame). */
  datatype Option<T> = None | Some(value: T)

  datatype Result<T, E> = Success(value: T) | Failure(error: E)
}
