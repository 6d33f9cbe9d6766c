/** The failure-carrying types every other module uses for the source's `Option` and `Result`. */
module Outcome {

  datatype Option<+T> = None | Some(value: T)

  datatype Result<+T, +E> = Ok(value: T) | Err(error: E)
}
