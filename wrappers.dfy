/** Failure-compatible wrappers shared by the whole model. */
module Wrappers {

  /** A C# reference that may be null: `None` is null. */
  datatype Option<+T> = None | Some(value: T)

  /** A value, or the exception that the C# code would throw instead. */
  datatype Result<+R, +E> = Success(value: R) | Failure(error: E)

  /** The outcome of a settings `Validate()`: passing, or the message of the
      `ValidationException` it throws. */
  datatype Validation = Valid | Invalid(message: string)
}
