/** Option and Result, used for JavaScript's `undefined` fields and for
    the exceptions the Java handler can raise. */
module Wrappers {

  datatype Option<+T> = None | Some(value: T)

  datatype Result<+T, +E> = Ok(value: T) | Err(error: E)
}
