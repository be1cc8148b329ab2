/** Option and Result, the two wrappers the model uses for Python's "no
    value" and for the exceptions the codec lets escape. */
module Wrappers {

  datatype Option<+T> = None | Some(value: T)

  datatype Result<+T, +E> = Ok(value: T) | Err(error: E)
}
