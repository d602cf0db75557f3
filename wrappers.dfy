/** Small failure-carrying datatypes, and a sequence fact, shared by the other modules. */
module Wrappers {

  /** A value that may be absent (a JavaScript `NaN`, `undefined` or a failed parse). */
  datatype Option<+T> = None | Some(value: T) {
    function GetOr(default: T): T {
      match this
      case Some(v) => v
      case None => default
    }
  }

  /** The outcome of an operation that can throw: a value, or the error it throws. */
  datatype Result<+T> = Success(value: T) | Failure(error: string)

  /** Concatenation is associative. */
  lemma AppendAssoc<T>(a: seq<T>, b: seq<T>, c: seq<T>)
    ensures a + b + c == a + (b + c)
  {
  }
}
