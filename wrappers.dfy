/** Optional values and results with an error, in place of Python's `None`
    returns and raised exceptions. */
module Wrappers {

  datatype Option<+T> = None | Some(value: T) {
    /** `x if x is not None else default` */
    function GetOr(default: T): T
    {
      if Some? then value else default
    }
  }

  datatype Result<+T, +E> = Ok(value: T) | Err(error: E)
}
