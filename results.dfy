/** The outcome of an operation that can fail, in place of a raised exception, and an optional value. */
module Results {

  datatype Result<T, E> = Ok(value: T) | Err(error: E)

  datatype Option<T> = None | Some(value: T)

}
