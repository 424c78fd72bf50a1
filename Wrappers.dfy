/** Option, the "absent or present" result used throughout the model
    (Python's None, SQL's NULL, a query that found no row). */
module Wrappers {

  datatype Option<+T> = None | Some(value: T) {

    /** The wrapped value, or `default` when absent. */
    function GetOr(default: T): T {
      match this
      case Some(v) => v
      case None => default
    }
  }
}
