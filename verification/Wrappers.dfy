/** What every module shares. */
module Wrappers {
  /** A SQL NULL, a missing key or an early `return None`. */
  datatype Option<+T> = None | Some(value: T)
  {
    function GetOr(default: T): T {
      match this
      case Some(v) => v
      case None => default
    }
  }

  ghost predicate NoRepeats<T>(s: seq<T>) {
    forall i, j :: 0 <= i < j < |s| ==> s[i] != s[j]
  }

  /** White space, as far as ASCII goes. */
  predicate Space(c: char) {
    9 <= c as int <= 13 || 28 <= c as int <= 32
  }
}
