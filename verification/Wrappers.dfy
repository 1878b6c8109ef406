/** The two shapes an answer takes when there may be none. */
module Wrappers {
  datatype Option<+T> = None | Some(value: T)

  datatype Result<+T, +E> = Ok(value: T) | Err(error: E) {
    predicate IsFailure() { Err? }

    function PropagateFailure<U>(): Result<U, E>
      requires Err?
    {
      Result.Err(error)
    }

    function Extract(): T
      requires Ok?
    {
      value
    }
  }
}
