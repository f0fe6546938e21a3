// The optional and fallible results of the model. A Go function that returns
// (T, error) becomes one that returns a Result<T>.
module Wrappers {
  datatype Option<+T> = None | Some(value: T)

  datatype Result<+T> = Ok(value: T) | Err
}
