/** Option and Result, named as in Rust, for the values the program returns
    and for the panics of password-cli, which the model turns into errors. */
module Wrappers {

  datatype Option<+T> = None | Some(value: T)

  datatype Result<+T, +E> = Ok(value: T) | Err(error: E)
}
