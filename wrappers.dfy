/** Option and Result, the two wrappers the model uses for Rust's `Option` and `io::Result`. */
module Wrappers {

  datatype Option<T> = None | Some(value: T)

  datatype Result<T, E> = Success(value: T) | Failure(error: E)
}
