/** The optional-value and result types shared by every module of the model. */
module Wrappers {

  /** An optional value; `None` stands for JavaScript's `undefined` or `null` result. */
  datatype Option<+T> = None | Some(value: T)

  /** A value or the error the JavaScript code would throw. */
  datatype Result<+T, +E> = Success(value: T) | Failure(error: E)
}
