/** `Option` (a nullable reference) and `Result` (return or throw), shared
    by the model. */
module Wrappers {

  datatype Option<+T> = None | Some(value: T)

  datatype Result<+R, +E> = Ok(value: R) | Err(error: E)
}
