/** Option and Result values for the places where the PHP code returns FALSE,
    null or throws instead of returning a value. */
module Wrappers {

  datatype Option<+T> = None | Some(value: T)

  datatype Result<+T, +E> = Ok(value: T) | Err(error: E)
}
