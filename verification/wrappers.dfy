/** Failure-carrying datatypes used in place of Java's `null` and exceptions. */
module Wrappers {

  /** A value that may be absent, as a Java reference that may be `null`. */
  datatype Option<+T> = None | Some(value: T)

  /** Either a value or the error that stopped the computation. */
  datatype Result<+R, +E> = Success(value: R) | Failure(error: E)
}
