/** Failure-compatible result types used by every operation of the model.
    The library this models aborts the process on a malformed module; here
    each such abort becomes a `Failure` carrying the reason instead. */
module Wrappers {

  /** An optional value; `None` stands for the null pointer some operations return. */
  datatype Option<+T> = None | Some(value: T) {

    predicate IsFailure() {
      None?
    }

    function PropagateFailure<U>(): Option<U>
      requires None?
    {
      None
    }

    function Extract(): T
      requires Some?
    {
      value
    }
  }

  /** Either the value an operation produced or the error that stopped it. */
  datatype Result<+T, +E> = Success(value: T) | Failure(error: E) {

    predicate IsFailure() {
      Failure?
    }

    function PropagateFailure<U>(): Result<U, E>
      requires Failure?
    {
      Failure(error)
    }

    function Extract(): T
      requires Success?
    {
      value
    }
  }
}
