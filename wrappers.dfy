/** Failure-carrying datatypes: a Java reference that may be null, and an
    operation that either returns a value or throws. */
module Wrappers {

  /** A possibly-null Java reference: None stands for null. */
  datatype Option<+T> = None | Some(value: T)

  /** The outcome of an operation that returns a value or throws an error. */
  datatype Result<+R, +E> = Success(value: R) | Failure(error: E)

  /** The outcome of a void operation that returns normally or throws an error. */
  datatype Outcome<+E> = Pass | Fail(error: E)
}
