/** Optional values and results with an error value, used for the places where the
    modelled code returns nothing or raises an exception. */
module Wrappers {

  datatype Option<+T> = None | Some(value: T)

  datatype Result<+T, +E> = Ok(value: T) | Err(error: E)
}
