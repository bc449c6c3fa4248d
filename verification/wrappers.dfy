/** Failure-compatible datatypes shared by the whole model: Python's `None`
    becomes `Option.None`, and a raised exception becomes `Result.Err`. */
module Wrappers {

  /** A value that may be absent (Python's `None`). */
  datatype Option<+T> = None | Some(value: T) {

    /** The wrapped value, or `default` when absent (Python's `x or default`
        when the only falsy value is `None`). */
    function GetOr(default: T): T {
      match this
      case Some(v) => v
      case None => default
    }
  }

  /** The outcome of a step that may raise: `Ok` carries the value, `Err` the
      exception the source would raise. Usable with `:-`. */
  datatype Result<+T, +E> = Ok(value: T) | Err(error: E) {

    predicate IsFailure() {
      Err?
    }

    function PropagateFailure<U>(): Result<U, E>
      requires Err?
    {
      Err(error)
    }

    function Extract(): T
      requires Ok?
    {
      value
    }
  }
}
