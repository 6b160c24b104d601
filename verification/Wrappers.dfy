/** Values that may be missing: Python's `None`, Ruby's `nil` and SQL's NULL. */
module Wrappers {

  datatype Option<+T> = None | Some(value: T)
}
