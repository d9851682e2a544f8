/** Option, Result and Outcome: Java's nullable references and thrown exceptions made explicit. */
module Wrappers {

  /** A nullable Java reference: None stands for null. */
  datatype Option<+T> = None | Some(value: T)

  /** A call that either returns a value or throws the error. */
  datatype Result<+R, +E> = Success(value: R) | Failure(error: E)

  /** A void call that either returns normally or throws the error. */
  datatype Outcome<+E> = Pass | Fail(error: E)
}
