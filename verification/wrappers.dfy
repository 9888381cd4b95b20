/** Failure-compatible wrapper types shared by the rest of the model. */
module Wrappers {

  /** A value that may be absent; stands for a nullable pointer or a missing map entry. */
  datatype Option<+T> = None | Some(value: T)

  /** Either a value or an error describing why there is none. */
  datatype Result<+R, +E> = Success(value: R) | Failure(error: E)
}
