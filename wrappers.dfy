/** Option, Result and Outcome: how the model returns JavaScript's `undefined`,
    thrown errors and hooks that either let a save proceed or abort it. */
module Wrappers {

  datatype Option<+T> = None | Some(value: T)

  datatype Result<+R, +E> = Success(value: R) | Failure(error: E)

  /** The outcome of a pre-save hook: `Pass` lets the save go on, `Fail` is the error it throws. */
  datatype Outcome<+E> = Pass | Fail(error: E)
}
