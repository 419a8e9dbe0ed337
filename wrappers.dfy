/** Stock wrapper types: `Option` for "the value may be missing" and `Result`
    for operations that can fail with an error value. */
module Wrappers {

  datatype Option<+T> = None | Some(value: T)

  datatype Result<+T, +E> = Ok(value: T) | Err(error: E)
}
