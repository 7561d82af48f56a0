/** Option and Result, used for values that may be absent and for the
    exceptions the modelled routines raise. */
module Wrappers {

  datatype Option<+T> = None | Some(value: T)

  datatype Result<+T, +E> = Ok(value: T) | Failure(error: E)
}
