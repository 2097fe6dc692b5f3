/** Failure-carrying values used throughout the model: `Option` for JavaScript
    lookups that may come back `undefined`, `Result` for operations that throw. */
module Wrappers {

  datatype Option<+T> = None | Some(value: T)

  /** `Failure(e)` stands for a thrown `Error`; `e` abstracts its message. */
  datatype Result<+T, +E> = Success(value: T) | Failure(error: E) {

    predicate IsFailure() {
      Failure?
    }

    function PropagateFailure<U>(): Result<U, E>
      requires Failure?
    {
      Failure(error)
    }

    function Extract(): T
      requires Success?
    {
      value
    }
  }

  /** A JavaScript argument that may be `undefined` or `null` besides a value of its declared type. */
  datatype Nullable<+T> = Undefined | Null | Defined(value: T)
}
