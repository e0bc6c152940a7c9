/** Option and Outcome, the two failure-compatible wrappers the model uses for
    Ruby's `nil` and for "returned normally / raised". */
module Wrappers {

  /** A value that may be absent (Ruby `nil`). */
  datatype Option<+T> = None | Some(value: T) {
    function GetOr(default: T): T {
      match this
      case Some(v) => v
      case None => default
    }
  }

  /** The result of a Ruby call that either returns normally or raises `error`. */
  datatype Outcome<+E> = Pass | Fail(error: E)
}
