/** Optional values and results with an error, used for PHP's nullable
    arguments, `false`-or-position returns and thrown exceptions. */
module Wrappers {

  datatype Option<+T> = None | Some(value: T)

  datatype Result<+T, +E> = Ok(value: T) | Err(error: E)
}
