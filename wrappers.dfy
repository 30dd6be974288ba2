/** Option and Result, used for the values Python represents as `None` and
    for the exceptions the core raises. */
module Wrappers {

  datatype Option<+T> = None | Some(value: T)

  datatype Result<+T, +E> = Ok(value: T) | Err(error: E)
}
