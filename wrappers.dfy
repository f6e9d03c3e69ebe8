/** Failure-carrying datatypes shared by the modules of this model. */
module Wrappers {

  /** An optional value: JavaScript's `undefined` return, or a present value. */
  datatype Option<+T> = None | Some(value: T)

  /** A computation that either yields a value or throws an error. */
  datatype Result<+R, +E> = Success(value: R) | Failure(error: E)
}
