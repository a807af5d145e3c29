/** Failure-carrying values shared by the other modules. */
module Wrappers {

  /** A value that may be missing. In this model `None` marks a path on which
      the program calls `abort()` or would read a variable it never assigned. */
  datatype Option<+T> = None | Some(value: T)
}
