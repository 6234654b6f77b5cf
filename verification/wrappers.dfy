/** Optional values and success-or-error results. `Option` stands for Go's
    nil-able pointers, `Result` for a value paired with Go's `error`. */
module Wrappers {

  datatype Option<+T> = None | Some(value: T)

  datatype Result<+T, +E> = Ok(value: T) | Err(error: E)
}
