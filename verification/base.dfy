/** Failure-carrying wrappers used throughout the model: `Option` for the
    source's nullable answers and `Result` for the exceptions it raises and
    catches. */
module Base {

  datatype Option<+T> = None | Some(value: T)

  datatype Result<+T, +E> = Ok(value: T) | Err(error: E)
}
