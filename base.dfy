/** Failure-compatible wrappers shared by the planners and emitters. */
module Base {

  datatype Option<+T> = None | Some(value: T)

  /** The outcome of an operation that can fail with a message, like Rust's `Result<T, E>`. */
  datatype Result<+T> = Ok(value: T) | Err(error: string)
}
