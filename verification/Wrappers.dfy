/** Result types shared by the models. */
module Wrappers {

  datatype Option<+T> = None | Some(value: T)

  /** The source's exceptions and `fail` calls become `Err`. */
  datatype Result<+T, +E> = Ok(value: T) | Err(error: E)
}
