/** Option and Result values used where the modelled code returns `None`
    or raises an exception instead of returning normally. */
module Wrappers {

  datatype Option<+T> = None | Some(value: T)

  datatype Result<+T, +E> = Ok(value: T) | Err(error: E)
}
