/** Result types shared by the modules of this project. */
module Wrappers {

  /** A value that may be missing: the source's `None`. */
  datatype Option<+T> = None | Some(value: T)

  /** A value, or the exception the source raises instead. */
  datatype Result<+T, +E> = Ok(value: T) | Err(error: E)
}
