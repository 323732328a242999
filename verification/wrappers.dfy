/** Failure-compatible Option type used for Python's `IndexError` on a missing
    `split(...)[1]` element. */
module Wrappers {

  datatype Option<+T> = None | Some(value: T) {

    /** True if is None; lets `:-` propagate the failure */
    predicate IsFailure() {
      None?
    }

    function PropagateFailure<U>(): Option<U>
      requires None?
    {
      None
    }

    function Extract(): T
      requires Some?
    {
      value
    }
  }
}
