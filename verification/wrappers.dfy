/** Failure-compatible result types shared by the other modules. */
module Wrappers {

  /** An optional value: `None` stands for JavaScript's `undefined` / `null`. */
  datatype Option<+T> = None | Some(value: T)

  /** A value, or the error a failed assertion would have raised. */
  datatype Result<+R, +E> = Success(value: R) | Failure(error: E)
}
