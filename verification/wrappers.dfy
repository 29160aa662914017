/** Option and Result, the shapes the Rust code returns for "maybe" and "maybe failed". */
module Wrappers {

  datatype Option<T> = None | Some(value: T) {
    predicate IsSome() {
      Some?
    }

    function UnwrapOr(default: T): T {
      match this
      case Some(v) => v
      case None => default
    }
  }

  datatype Result<T, E> = Ok(value: T) | Err(error: E) {
    predicate IsOk() {
      Ok?
    }

    /** Drops the error, keeping only a present or absent value. */
    function ToOption(): Option<T> {
      match this
      case Ok(v) => Some(v)
      case Err(_) => None
    }
  }
}
