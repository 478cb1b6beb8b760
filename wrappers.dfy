/** The optional value that Python writes as `None` or a value, and the
    outcome of a call that either returns or raises. */
module Wrappers {
  datatype Option<T> = None | Some(value: T)

  datatype Result<T, E> = Ok(value: T) | Err(error: E)
}
