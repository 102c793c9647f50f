/** The optional value used wherever the sources return `undefined`, `null`
    or a caught error, and the outcome of an operation that can throw. */
module Wrappers {
  datatype Option<+T> = None | Some(value: T)

  datatype Result<+T> = Ok(value: T) | Err(error: string)
}
