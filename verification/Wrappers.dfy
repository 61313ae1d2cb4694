/** Small shared datatypes. */
module Wrappers {
  // A pointer that may be NULL, or an entry that may be absent.
  datatype Option<+T> = None | Some(value: T)
}
