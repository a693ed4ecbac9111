/** Failure-carrying wrappers used for the places where the source raises. */
module Outcomes {

  /** `None` stands for an operation that raised. */
  datatype Option<+T> = None | Some(value: T)

  /** A result or the reason the source raised. */
  datatype Result<+T, +E> = Success(value: T) | Failure(error: E)
}
