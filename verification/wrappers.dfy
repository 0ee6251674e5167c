/** Optional values and results with an error, used for the nullable fields
    of a response and for the exceptions the client throws. */
module Wrappers {

  datatype Option<+T> = None | Some(value: T)

  datatype Result<+T, +E> = Ok(value: T) | Err(error: E)
}
