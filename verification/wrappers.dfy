/** Failure-carrying return values that replace the rules engine's exceptions. */
module Wrappers {

  datatype Option<+T> = None | Some(value: T)

  /** Either the value an operation produced or the rule it violated. */
  datatype Result<+T, +E> = Ok(value: T) | Err(error: E)
}
