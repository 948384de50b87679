module Wrappers {

  /** A value that may be missing, as a `null` reference may be. */
  datatype Option<+T> = None | Some(value: T)
}
