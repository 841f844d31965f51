/** Option and Result, for Go's nil pointers and `(value, error)` returns. */
module Wrappers {

  /** A value that may be absent: a nil pointer or an unset optional protobuf field. */
  datatype Option<+T> = None | Some(value: T) {

    /** The wrapped value, or `default` when absent (the generated getters' behaviour). */
    function GetOr(default: T): T {
      match this
      case Some(v) => v
      case None => default
    }
  }

  /** Either a value or an error, as in Go's `(T, error)` pair. */
  datatype Result<+R, +E> = Success(value: R) | Failure(error: E)
}
