/** Failure-compatible datatypes shared by the whole model. */
module Wrappers {

  /** An optional value; for a Java reference `None` stands for `null`. */
  datatype Option<+T> = None | Some(value: T)

  /** The outcome of an operation that either returns a value or throws. */
  datatype Result<+R, +E> = Success(value: R) | Failure(error: E)
}
