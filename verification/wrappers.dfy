/** Failure-compatible optional values, used where an operation of the model may
    give up (the fuel of `NodeInsert.NodeAdd` running out) or where a corrected
    operation reports "no result" (an empty intersection). */
module Wrappers {

  datatype Option<+T> = None | Some(value: T) {

    predicate IsFailure() {
      None?
    }

    function PropagateFailure<U>(): Option<U>
      requires None?
    {
      None
    }

    function Extract(): T
      requires Some?
    {
      value
    }
  }
}
