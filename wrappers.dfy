/** Failure-carrying datatypes used in place of Java's null and exceptions. */
module Wrappers {

  /** A value that may be absent (a nullable field). */
  datatype Option<T> = None | Some(value: T)

  /** Either a value or the error that was thrown instead of returning it. */
  datatype Result<T, E> = Success(value: T) | Failure(error: E)

  /** The outcome of an operation that returns nothing on success (a `void` method). */
  datatype Outcome<E> = Pass | Fail(error: E)
}
