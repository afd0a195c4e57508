/** Failure-carrying result types shared by the whole model. */
module Wrappers {

  datatype Option<+T> = None | Some(value: T)

  /** A value or an error, the model of a resolved or rejected promise. */
  datatype Result<+R, +E> = Success(value: R) | Failure(error: E)

  /** Success without a value, or an error: a `Promise<void>`. */
  datatype Outcome<+E> = Pass | Fail(error: E)
}
