/** Optional values and results with an error payload, shared by every module. */
module Wrappers {

  datatype Option<T> = None | Some(value: T) {
    predicate IsNone() { this.None? }
  }

  datatype Result<T, E> = Success(value: T) | Failure(error: E) {
    predicate IsFailure() { this.Failure? }

    function PropagateFailure<U>(): Result<U, E>
      requires IsFailure()
    {
      Failure(this.error)
    }

    function Extract(): T
      requires !IsFailure()
    {
      this.value
    }
  }
}
