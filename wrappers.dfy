/** Optional values and results with an error message, used wherever the
    application gets an answer from a hosted service it does not control. */
module Wrappers {

  datatype Option<+T> = None | Some(value: T)

  datatype Result<+T> = Ok(value: T) | Err(message: string)
}
