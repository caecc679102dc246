// Failure-carrying results shared by every module of the model: the Go code
// returns `(value, error)` pairs, which become `Result`, and the optional
// outcomes of the order searches become `Option`.
module Wrappers {

  datatype Option<+T> = None | Some(value: T)

  datatype Result<+T, +E> = Ok(value: T) | Err(error: E)
}
