/** The two result types shared by the whole project. */
module Wrappers {

  datatype Option<+T> = None | Some(value: T)

  /** A JavaScript call that returns (`Ok`) or throws (`Err`). */
  datatype Result<+T, +E> = Ok(value: T) | Err(error: E) {
    predicate IsFailure() { Err? }

    function PropagateFailure<U>(): Result<U, E>
      requires Err?
    {
      Err(error)
    }

    function Extract(): T
      requires Ok?
    {
      value
    }
  }
}
