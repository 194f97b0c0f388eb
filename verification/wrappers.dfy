/** Option and Result values: Java's `null` and thrown exceptions, JavaScript's
    thrown errors, are modelled with these instead of preconditions. */
module Wrappers {

  datatype Option<+T> = None | Some(value: T)

  datatype Result<+T, +E> = Ok(value: T) | Err(error: E)
}
