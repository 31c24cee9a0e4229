/** Failure-carrying values shared by the other modules: an optional value
    (a Go value that may be nil) and a result that is either a value or a
    configuration error. */
module Outcomes {

  datatype Option<+T> = None | Some(value: T)

  datatype Result<+T, +E> = Ok(value: T) | Err(error: E)
}
