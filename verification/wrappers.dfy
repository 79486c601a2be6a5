/** An option type shared by the other modules. */
module Wrappers {

  /** A value that may be absent. Used where Go distinguishes a nil slice
      from an empty one. */
  datatype Option<+T> = None | Some(value: T)
}
