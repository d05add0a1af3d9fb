/** Results that tell failing assertions and arithmetic operations from errors. */
module Outcomes {
  /** How a call ends: with a value, with an error, or because an assertion or an arithmetic operation
      of the program fails. */
  datatype Outcome<+T> = Done(value: T) | Failed | Panicked {
    predicate IsFailure() {
      !Done?
    }

    function PropagateFailure<U>(): Outcome<U>
      requires IsFailure()
    {
      if Panicked? then Panicked else Failed
    }

    function Extract(): T
      requires !IsFailure()
    {
      value
    }
  }
}
