/** Option and Result values, used for JavaScript's `undefined` and for thrown errors. */
module Wrappers {

  /** `Some(v)` for a defined value, `None` for `undefined`. */
  datatype Option<+T> = None | Some(value: T)

  /** The outcome of a call that may throw: `Failure` carries what was thrown. */
  datatype Result<+R, +E> = Success(value: R) | Failure(error: E)
}
