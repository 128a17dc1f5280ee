/** Result types shared by the registry model. */
module Wrappers {

  /** A value that may be absent: Go's possibly-nil `error`. */
  datatype Option<+T> = None | Some(value: T)

  /** A value or the error that prevented computing it. */
  datatype Result<+R, +E> = Success(value: R) | Failure(error: E)

  /** Success without a value, or the error that occurred. */
  datatype Outcome<+E> = Pass | Fail(error: E)
}
