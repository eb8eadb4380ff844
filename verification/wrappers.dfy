/** An optional value and a value-or-error result, used across the model. */
module Wrappers {

  /** A value that may be absent (JavaScript's `null`/`undefined`). */
  datatype Option<+T> = None | Some(value: T)

  /** The outcome of a step that may throw: `Failure` stands for an exception
      the source does not catch. */
  datatype Result<+R, +E> = Success(value: R) | Failure(error: E)
}
