/** Option and call-result datatypes shared by every module of the model. */
module Wrappers {

  /** A value that may be absent (`null`/`undefined` in the application). */
  datatype Option<+T> = None | Some(value: T) {

    /** The wrapped value, or `default` when absent. */
    function GetOr(default: T): T {
      match this
      case Some(v) => v
      case None => default
    }
  }

  /** What an awaited call to a backend service (an RPC, an edge function,
      a storage or table request) hands back: an error object or its data. */
  datatype Reply<+T> = Failed | Data(data: T)
}
