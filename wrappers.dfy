/** Option and Result wrappers shared by the modules of this project. */
module Wrappers {

  /** A value or nothing: stands for a JavaScript `null` / Java `null` result. */
  datatype Option<+T> = None | Some(value: T)

  /** A value, or the error the source would raise at run time. */
  datatype Result<+T, +E> = Ok(value: T) | Err(error: E)
}
