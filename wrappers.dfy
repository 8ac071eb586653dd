/** Option and Result, used for the NULL returns and error returns of the C code, and a sequence helper. */
module Wrappers {

  /** A C pointer result that may be NULL: None stands for NULL. */
  datatype Option<+T> = None | Some(value: T) {
    function GetOr(default: T): T {
      match this
      case Some(v) => v
      case None => default
    }
  }

  /** A call that either succeeds with a value or reports an error. */
  datatype Result<+R, +E> = Success(value: R) | Failure(error: E)

  /** Concatenation is associative. */
  lemma AppendAssoc<T>(a: seq<T>, b: seq<T>, c: seq<T>)
    ensures (a + b) + c == a + (b + c)
  {
  }
}
