/** The two sum types through which every fallible operation of the model reports its outcome,
    mirroring Rust's `Option` and `Result`. */
module Wrappers {
  datatype Option<T> = None | Some(value: T)

  datatype Result<T, E> = Ok(value: T) | Err(error: E)
}
