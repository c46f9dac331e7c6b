/** Java's nullable references, as an explicit option. */
module Wrappers {

  datatype Option<+T> = None | Some(value: T) {

    /** The contents as a list of at most one element. */
    function Elements(): (s: seq<T>)
      ensures |s| <= 1
      ensures Some? <==> |s| == 1
      ensures Some? ==> s[0] == value
    {
      match this
      case None => []
      case Some(v) => [v]
    }
  }

  /** The entries of a list that may still be null. */
  function Entries<T>(list: Option<seq<T>>): seq<T>
  {
    match list
    case None => []
    case Some(entries) => entries
  }
}
