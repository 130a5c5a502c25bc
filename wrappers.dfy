/** Optional values and the outcome of a Java call that may throw. */
module Wrappers {

  /** A possibly-null reference: `None` stands for Java's `null`. */
  datatype Option<+T> = None | Some(value: T)

  /** The outcome of a call that may throw; `Err` keeps the exception's message. */
  datatype Result<+T> = Ok(value: T) | Err(message: string) {

    predicate IsFailure() {
      Err?
    }

    function PropagateFailure<U>(): Result<U>
      requires Err?
    {
      Err(message)
    }

    function Extract(): T
      requires Ok?
    {
      value
    }
  }
}
