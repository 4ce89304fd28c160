/** Option and Result wrappers shared by the other modules. */
module Wrappers {

  /** A value that may be missing (Python's `None`). */
  datatype Option<+T> = None | Some(value: T)

  /** Either a value or the error that prevented computing it (a raised exception). */
  datatype Result<+R, +E> = Success(value: R) | Failure(error: E)
}
