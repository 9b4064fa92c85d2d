/** Optional values and results with an error value, for Python's `None` and raised exceptions. */
module Wrappers {

  /** `None` is a failure for `:-`, so a chain of pattern steps stops at the first one that does not match. */
  datatype Option<+T> = None | Some(value: T) {

    predicate IsFailure() {
      None?
    }

    function PropagateFailure<U>(): Option<U>
      requires None?
    {
      None
    }

    function Extract(): T
      requires Some?
    {
      value
    }
  }

  datatype Result<+T, +E> = Ok(value: T) | Err(error: E)
}
