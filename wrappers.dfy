/** Option and Result, the two failure-carrying shapes used across the model. */
module Wrappers {

  datatype Option<+T> = None | Some(value: T) {
    function GetOr(default: T): T {
      match this
      case Some(v) => v
      case None => default
    }
  }

  /** The source's `anyhow::Result`: an error carries only a message. */
  datatype Result<+T> = Ok(value: T) | Err(msg: string)

  /** A `Result<()>`. */
  datatype Outcome = Pass | Fail(msg: string)
}
