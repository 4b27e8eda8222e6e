/** Failure-carrying values shared by the grid modules: `Option` stands for a
    reference that may be null, `Result` for an operation that may throw. */
module Wrappers {

  /** A value that may be absent (a null reference in the library). */
  datatype Option<+T> = None | Some(value: T)

  /** The runtime exceptions the modelled operations can raise. */
  datatype Fault =
    | NullReference   // a member was called through a null `Data` array
    | KeyNotFound     // a dictionary lookup missed

  /** Either the value an operation returns or the exception it throws. */
  datatype Result<+T> = Ok(value: T) | Err(fault: Fault)
}
