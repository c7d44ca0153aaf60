/** The Some/None datatype used wherever the source returns `null`,
    `undefined` or `Infinity` for "nothing here". */
module Wrappers {
  datatype Option<+T> = None | Some(value: T) {
    function GetOr(default: T): T {
      match this
      case Some(v) => v
      case None => default
    }
  }
}
