/** An optional value, standing in for the Go code's nil-able errors. */
module Wrappers {

  datatype Option<+T> = None | Some(value: T) {

    /** What to show for this value: the carried value, or the fallback
        when there is none. */
    function GetOr(default: T): T
    {
      match this
      case Some(v) => v
      case None => default
    }
  }
}
