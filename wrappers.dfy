/** Failure-compatible helper types shared by the modules of this model. */
module Wrappers {

  /** A value that may be absent: stands for a C null pointer or a Python None. */
  datatype Option<+T> = None | Some(value: T) {
    predicate IsFailure() {
      None?
    }

    function PropagateFailure<U>(): Option<U>
      requires None?
    {
      None
    }

    function Extract(): T
      requires Some?
    {
      value
    }
  }
}
