/** Optional values, and outcomes of operations that can be refused or can die halfway. */
module Wrappers {

  datatype Option<+T> = None | Some(value: T) {

    function UnwrapOr(default: T): T {
      if Some? then value else default
    }
  }

  /** How one operation ended: with a value, with one of the protocol's errors, or not at all
      because the process died. `:-` propagates the last two. */
  datatype Outcome<+T, +E> = Done(value: T) | Refused(error: E) | Crashed {

    predicate IsFailure() {
      !Done?
    }

    function PropagateFailure<U>(): Outcome<U, E>
      requires IsFailure()
    {
      match this
      case Refused(e) => Refused(e)
      case Crashed => Crashed
    }

    function Extract(): T
      requires Done?
    {
      value
    }
  }
}
