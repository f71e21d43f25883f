/** Failure-compatible result types shared by every module of the model. */
module Wrappers {

  /** An optional value; as a grid cell, `None` is the undefined (NaN) marker. */
  datatype Option<+T> = None | Some(value: T)

  /** The outcome of an operation of the source that may raise. */
  datatype Result<+T, +E> = Ok(value: T) | Err(error: E) {

    predicate IsFailure() {
      Err?
    }

    function PropagateFailure<U>(): Result<U, E>
      requires Err?
    {
      Err(error)
    }

    function Extract(): T
      requires Ok?
    {
      value
    }
  }
}
