/** Option and Result, the tagged values the model uses for JavaScript's
    `undefined` / `null` and for thrown exceptions. */
module Wrappers {

  datatype Option<+T> = None | Some(value: T)

  datatype Result<+T, +E> = Ok(value: T) | Err(error: E)
}
