/** Option and Result, the failure-carrying values used throughout the model. */
module Wrappers {

  /** An absent or present value; JavaScript's `undefined`/`NaN` outcomes become `None`. */
  datatype Option<+T> = None | Some(value: T)

  /** A computed value, or the error the source code throws instead of returning. */
  datatype Result<+R, +E> = Success(value: R) | Failure(error: E)
}
