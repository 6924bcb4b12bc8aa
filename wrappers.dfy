/** Optional values and success/failure results, standing for Python's `None`
    and for the exceptions the game raises. */
module Wrappers {

  datatype Option<+T> = None | Some(value: T)

  datatype Result<+T, +E> = Ok(value: T) | Err(error: E)
}
