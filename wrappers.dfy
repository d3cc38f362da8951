/** A small wrapper for values PHP may leave unset (null). */
module Wrappers {

  /** A value that may be absent, as `null` is for an unset environment variable. */
  datatype Option<+T> = None | Some(value: T)
}
