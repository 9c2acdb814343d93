/** Option and Result, the two failure-carrying datatypes used throughout the model. */
module Wrappers {

  datatype Option<+T> = None | Some(value: T)

  /** A computation that either produces a value or fails with an error.
      Python exceptions of the source are modelled as `Err`. */
  datatype Result<+T, +E> = Ok(value: T) | Err(error: E)
}
