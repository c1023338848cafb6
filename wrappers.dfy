/** Small failure-aware datatypes shared by the model. */
module Wrappers {

  /** Rust's `Option<T>`: `set_coeff` takes `Option<T>` and writes 1 for `None`. */
  datatype Option<+T> = None | Some(value: T) {
    function GetOr(default: T): T {
      match this
      case Some(v) => v
      case None => default
    }
  }

  /** The outcome of an operation whose source ends in an explicit `panic!`. */
  datatype Outcome = Ok | Panic(message: string)
}
