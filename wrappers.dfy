/** Failure-compatible wrapper shared by the other modules. */
module Wrappers {

  /** A value that may be missing: `None` where the Python code would
      take an exception path or yield `None`. */
  datatype Option<+T> = None | Some(value: T)
}
