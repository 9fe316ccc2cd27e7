/** Option and Result, used for JavaScript's nullable values and for
    operations that can throw. */
module Wrappers {

  /** A nullable value: `None` stands for JavaScript `null` / `undefined`. */
  datatype Option<+T> = None | Some(value: T) {

    /** `x ?? d` */
    function GetOr(default: T): T {
      match this
      case Some(v) => v
      case None => default
    }
  }

  /** The outcome of an operation that either produces a value or throws. */
  datatype Result<+R, +E> = Ok(value: R) | Err(error: E)

  /** `s || null`: the empty string becomes null. */
  function OrNull(s: string): (r: Option<string>)
    ensures r.None? <==> s == ""
    ensures r.Some? ==> r.value == s
  {
    if s == "" then None else Some(s)
  }
}
