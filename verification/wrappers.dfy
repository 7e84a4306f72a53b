/** Option and Result, the failure-carrying datatypes used across the model. */
module Wrappers {

  datatype Option<+T> = None | Some(value: T)

  /** Either a value or an error; stands in for the source's thrown errors and error responses. */
  datatype Result<+T, +E> = Ok(value: T) | Err(error: E)
}
