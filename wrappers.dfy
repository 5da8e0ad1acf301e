/** Option and result datatypes shared by the other modules. */
module Wrappers {

  /** An optional value: JavaScript's `T | null`. */
  datatype Option<+T> = None | Some(value: T)

  /** Either a value or the error that aborted the computation. */
  datatype Result<+R, +E> = Ok(value: R) | Err(error: E)
}
