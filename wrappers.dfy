/** The two result shapes the model uses: a value that may be absent (Python's
    `None`) and an operation that either yields a value or raises an
    exception, which the model keeps as its message. */
module Wrappers {

  datatype Option<T> = None | Some(value: T)

  datatype Result<T> = Ok(value: T) | Err(message: string)
}
