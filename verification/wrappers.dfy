/** An optional value and a success-or-error result, used across the model. */
module Wrappers {

  /** An optional value; `None` stands for JavaScript's `NaN` / `undefined`. */
  datatype Option<+T> = None | Some(value: T)

  /** The outcome of an operation that may fail with an error of type `E`. */
  datatype Result<+R, +E> = Success(value: R) | Failure(error: E)
}
