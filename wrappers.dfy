/** The optional value used for JSON fields that may be missing or `null`. */
module Wrappers {

  datatype Option<+T> = None | Some(value: T) {

    /** The wrapped value, or `default` when there is none (Python's `dict.get(key, default)`). */
    function GetOr(default: T): T {
      match this
      case Some(v) => v
      case None => default
    }

    /** The wrapped value as a zero- or one-element sequence. */
    function ToSeq(): (s: seq<T>)
      ensures |s| <= 1
      ensures None? <==> s == []
      ensures Some? ==> s == [value]
    {
      match this
      case Some(v) => [v]
      case None => []
    }
  }
}
