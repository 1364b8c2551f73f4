/** Optional values and results with an error message, used wherever the
    source has a nullable value (`T | null`, `undefined` from `find`) or an
    input that can be malformed. */
module Wrappers {

  datatype Option<+T> = None | Some(value: T)

  datatype Result<+T> = Ok(value: T) | Err(message: string)
}
