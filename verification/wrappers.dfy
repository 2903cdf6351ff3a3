/** Failure-carrying datatypes used in place of Java's null and exceptions. */
module Wrappers {

  /** A value that may be absent; stands for a Java reference that may be null
      or a map key that may be missing. */
  datatype Option<+T> = None | Some(value: T)

  /** The outcome of an operation that either returns a value or throws. */
  datatype Result<+T, +E> = Ok(value: T) | Err(error: E)

  /** The outcome of a `void` operation that either returns or throws. */
  datatype Outcome<+E> = Pass | Fail(error: E)
}
