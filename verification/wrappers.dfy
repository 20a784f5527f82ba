/** Option and Result datatypes used for the error paths of the model. */
module Wrappers {

  datatype Option<+T> = None | Some(value: T)

  /** An operation either produces a value or raises an error. */
  datatype Result<+T, +E> = Ok(value: T) | Err(error: E)
}
