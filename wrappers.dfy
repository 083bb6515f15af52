/** Failure-carrying results, used where the Java code throws. */
module Wrappers {

  /** The outcome of an operation that either yields a value or throws. */
  datatype Result<+T, +E> = Ok(value: T) | Err(error: E)
}
