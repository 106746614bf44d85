/** Option and Result datatypes standing in for Java's null references and exceptions. */
module Wrappers {

  /** A possibly absent value: `None` plays the role of a Java `null`. */
  datatype Option<+T> = None | Some(value: T)

  /** The outcome of an operation that may throw. */
  datatype Result<+R, +E> = Success(value: R) | Failure(error: E)
}
