/** Optional values: `None` stands for JavaScript's `null`, `undefined` or `NaN`,
    whichever the modelled expression produces. */
module Wrappers {
  datatype Option<+T> = None | Some(value: T) {
    function GetOr(default: T): T {
      match this
      case Some(v) => v
      case None => default
    }
  }
}
