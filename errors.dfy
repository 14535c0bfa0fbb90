/** The error type of memory.rs and the two wrapper datatypes the model uses. */
module Errors {

  /** `Error::Windows` stands for any failure the OS reports (its error code is
      not modelled); `Error::InvalidString` for a name that is not valid UTF-16. */
  datatype Error = Windows | InvalidString

  /** `memory::Result<T>`. */
  datatype Result<T> = Ok(value: T) | Err(error: Error)

  datatype Option<T> = None | Some(value: T)
}
