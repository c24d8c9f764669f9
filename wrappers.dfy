/** Option and Result: the outcome of a step that may fail, as the JavaScript
    code expresses it with `undefined` values and thrown errors. */
module Wrappers {

  datatype Option<+T> = None | Some(value: T)

  datatype Result<+T, +E> = Ok(value: T) | Err(error: E)
}
