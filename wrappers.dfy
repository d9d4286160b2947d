/** Option and Result, the two failure-compatible types the model uses in place of Rust's. */
module Wrappers {

  datatype Option<+T> = None | Some(value: T)

  /** Rust's `Result`; `:-` plays the part of the `?` operator. */
  datatype Result<+T, +E> = Ok(value: T) | Err(error: E) {

    predicate IsFailure() {
      Err?
    }

    function PropagateFailure<U>(): Result<U, E>
      requires Err?
    {
      Err(error)
    }

    function Extract(): T
      requires Ok?
    {
      value
    }
  }
}
