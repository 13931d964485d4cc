/** The Option and Result datatypes shared by every module. */
module Wrappers {

  datatype Option<+T> = None | Some(value: T) {

    /** The wrapped value, or `default` when there is none (the `a ?? b` of the services). */
    function GetOr(default: T): T {
      match this
      case Some(v) => v
      case None => default
    }
  }

  /** `Ok` carries what a service call returns; `Err` carries the exception it throws. */
  datatype Result<+T, +E> = Ok(value: T) | Err(error: E)
}
