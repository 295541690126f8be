/** Optional values and error-carrying results used throughout the model.
    `None` stands for a JavaScript `undefined` property or argument. */
module Wrappers {

  datatype Option<+T> = None | Some(value: T) {

    /** The wrapped value, or `default` when absent (JavaScript's `x || default`
        for values whose falsy case is exactly "absent"). */
    function GetOr(default: T): T {
      match this
      case Some(v) => v
      case None => default
    }
  }

  /** Either a value or the error that aborts the whole invocation. */
  datatype Result<+T, +E> = Ok(value: T) | Err(error: E)
}
