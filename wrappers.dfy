/** Failure-carrying results shared by both structures. */
module Wrappers {

  /** The Python exceptions the modelled code can raise. */
  datatype Error =
    | ValueError       // invalid constructor argument
    | OverflowError    // `int.to_bytes` asked to encode a number that does not fit

  datatype Option<T> = None | Some(value: T)

  datatype Result<T> = Ok(value: T) | Err(error: Error)
}
