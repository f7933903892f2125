/** Failure-carrying datatypes shared by the model. */
module Wrappers {

  /** An optional value; `None` stands for JavaScript's `undefined`. */
  datatype Option<+T> = None | Some(value: T)

  /** The outcome of an operation that may throw. */
  datatype Result<+R> = Success(value: R) | Failure(error: string)
}
