/** A value that may be absent: a missing JSON field, or SQL NULL. */
module Wrappers {

  datatype Option<+T> = None | Some(value: T)
}
