/** Optional values and results with an error, used where the patcher's C# code has a
    nullable string or throws an exception. */
module Wrappers {

  datatype Option<+T> = None | Some(value: T)

  datatype Result<+T, +E> = Ok(value: T) | Err(error: E)
}
