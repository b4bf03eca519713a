/** Failure-carrying results used across the model. */
module Wrappers {

  datatype Option<+T> = None | Some(value: T)

  /** The error side carries the message the source attaches to its error. */
  datatype Result<+T> = Ok(value: T) | Err(msg: string)

  /** A result that carries no value: `anyhow::Result<()>`. */
  datatype Outcome = Pass | Fail(msg: string)
}
