/** Option, Result and Outcome: the model's stand-ins for nullable values,
    values-or-exceptions and void-or-exception. */
module Wrappers {

  datatype Option<+T> = None | Some(value: T)

  datatype Result<+T, +E> = Ok(value: T) | Err(error: E)

  datatype Outcome<+E> = Pass | Fail(error: E)
}
