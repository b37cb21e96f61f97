/** Shared result types.  `Raised` stands for a Python exception that reaches the caller. */
module Outcome {

  datatype Option<+T> = None | Some(value: T)

  datatype Result<+T> = Ok(value: T) | Raised
  {
    predicate IsFailure() {
      Raised?
    }

    function PropagateFailure<U>(): Result<U>
      requires Raised?
    {
      Raised
    }

    function Extract(): T
      requires Ok?
    {
      value
    }
  }
}
