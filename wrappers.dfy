/** The nullable values of the application (`string | null`, an optional query result). */
module Wrappers {

  datatype Option<+T> = None | Some(value: T)
  {
    /** `x ?? d` */
    function GetOr(default: T): T
    {
      match this
      case Some(v) => v
      case None => default
    }
  }
}
