/** Failure-compatible wrappers shared by every day's model.
    `Result.Err` stands for a Rust panic (an `unwrap` on a bad value, a failed
    `assert_eq!`, an out-of-range index): the message says which one. */
module Wrappers {

  datatype Option<+T> = None | Some(value: T)

  datatype Result<+T> = Ok(value: T) | Err(error: string) {

    predicate IsFailure() {
      Err?
    }

    function PropagateFailure<U>(): Result<U>
      requires Err?
    {
      Err(error)
    }

    function Extract(): T
      requires Ok?
    {
      value
    }
  }
}
