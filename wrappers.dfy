/** Option and Result datatypes for the missing values and exceptions of the analysed scripts. */
module Wrappers {

  datatype Option<+T> = None | Some(value: T)

  datatype Result<+R, +E> = Ok(value: R) | Err(error: E)
}
