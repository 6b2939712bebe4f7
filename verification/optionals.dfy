/** Swift's `Optional`, as used throughout the coding layer: a coding key's
    `intValue`, a container's optional `count`, `decodeIfPresent` results. */
module Optionals {

  datatype Option<+T> = None | Some(value: T) {

    /** `self ?? default` */
    function GetOr(default: T): T {
      match this
      case Some(v) => v
      case None => default
    }
  }
}
