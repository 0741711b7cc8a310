/** Option and Result, the two failure-carrying datatypes the model uses in place of
    Java's null references and thrown exceptions. */
module Wrappers {

  datatype Option<+T> = None | Some(value: T)

  /** The outcome of a service call: a value, or the error code the Java code throws. */
  datatype Result<+T, +E> = Ok(value: T) | Err(error: E)
}
