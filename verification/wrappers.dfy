/** Failure-compatible result types shared by every module of the model.
    A JavaScript `throw` of the modelled code becomes an `Err` carrying the
    error kind; `:-` propagates it the way an uncaught exception would. */
module Wrappers {

  datatype Option<+T> = None | Some(value: T)

  datatype Result<+T, +E> = Ok(value: T) | Err(error: E) {

    predicate IsFailure() {
      Err?
    }

    function PropagateFailure<U>(): Result<U, E>
      requires Err?
    {
      Err(error)
    }

    function Extract(): T
      requires Ok?
    {
      value
    }
  }
}
