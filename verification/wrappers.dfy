/** Failure-compatible wrappers shared by the roster modules.
    - Option<T> stands for a Java reference that may be null: None is null.
    - Result<T, E> stands for an operation that either returns a value or throws. */
module Wrappers {

  /** A possibly-null reference: None plays the role of Java's null. */
  datatype Option<+T> = None | Some(value: T)

  /** Either the value an operation returns, or the reason it was rejected. */
  datatype Result<+T, +E> = Ok(value: T) | Err(error: E)
}
