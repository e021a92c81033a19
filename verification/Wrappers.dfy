// Option and Result, shared by every module of the model.
module Wrappers {

  datatype Option<+T> = None | Some(value: T)

  // The two outcomes of a Python call: a returned value or a raised exception.
  datatype Result<+T, +E> = Ok(value: T) | Err(error: E)
}
