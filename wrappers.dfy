/** Option and Result values for optional fields and failing service calls. */
module Wrappers {

  /** A value that may be absent, e.g. a field left out of a partial record. */
  datatype Option<+T> = None | Some(value: T) {
    /** The held value, or `default` when absent. */
    function GetOr(default: T): T {
      match this
      case Some(v) => v
      case None => default
    }
  }

  /** The settled outcome of a service call: a value or a rejection reason. */
  datatype Result<+R, +E> = Success(value: R) | Failure(error: E)
}
