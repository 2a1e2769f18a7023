/** Option and Result values shared by every module of the model. */
module Results {

  datatype Option<T> = None | Some(value: T)

  /** Rust's `Result<T, E>`: a success value or an error. */
  datatype Result<T, E> = Ok(value: T) | Err(error: E)
}
