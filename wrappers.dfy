/** Rust's `Option` and `Result`, as the modelled code uses them. */
module Wrappers {

  datatype Option<+T> = None | Some(value: T)

  /** `Result<T, &'static str>`: the error side carries a message. */
  datatype Result<+T> = Ok(value: T) | Err(message: string)
}
