/** Wrappers used by the model: `Option` stands for a C#
    reference that may be null, `Result` for a call that either returns a value
    or throws. */
module Wrappers {

  /** A possibly-absent value (a nullable reference in the source). */
  datatype Option<+T> = None | Some(value: T)

  /** Either a returned value or the exception the call raises instead. */
  datatype Result<+R, +E> = Success(value: R) | Failure(error: E)
}
