/** Failure-compatible wrappers shared by the other modules. */
module Wrappers {

  /** A value that may be absent: `undefined`/`null` in the TypeScript source, or a
      partial function (a lookup that misses, a parse that throws) that gave nothing. */
  datatype Option<+T> = None | Some(value: T) {

    predicate IsFailure() {
      None?
    }

    function PropagateFailure<U>(): Option<U>
      requires None?
    {
      None
    }

    function Extract(): T
      requires Some?
    {
      value
    }

    function GetOr(default: T): T {
      match this
      case Some(v) => v
      case None => default
    }
  }
}
