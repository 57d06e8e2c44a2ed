/** Optional values: Python's `None` for a missing field, a failed lookup or an error path. */
module Wrappers {

  datatype Option<T> = None | Some(value: T) {

    /** The carried value, or `default` when there is none. */
    function GetOr(default: T): T {
      if Some? then value else default
    }
  }
}
