/** The optional value used where the source returns null. */
module Wrappers {

  /** A value that may be absent: the source's nullable references. */
  datatype Option<+T> = None | Some(value: T)
}
