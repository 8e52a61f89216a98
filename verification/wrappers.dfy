/** Failure-compatible result types used throughout the model. */
module Wrappers {

  /** An optional value; `None` stands for PHP's `false`/absent return. */
  datatype Option<+T> = None | Some(value: T)

  /** Either a successful value or the error that was thrown instead. */
  datatype Result<+R, +E> = Success(value: R) | Failure(error: E)
}
