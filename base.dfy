/** Option and Result, the shapes PHP's `null` returns and early error returns take in this model. */
module Base {

  datatype Option<T> = None | Some(value: T)

  datatype Result<T, E> = Ok(value: T) | Err(error: E)
}
