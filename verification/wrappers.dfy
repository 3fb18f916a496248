/** Rust's `Option` and `Result`, as the store's operations return them. */
module Wrappers {

  /** `Option<T>`: a value that may be absent. */
  datatype Option<+T> = None | Some(value: T)

  /** `Result<T, E>`: success carrying a value, or an error. */
  datatype Result<+T, +E> = Ok(value: T) | Err(error: E)
}
