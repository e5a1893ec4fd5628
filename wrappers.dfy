/** The optional value used for "no answer fragment in this document". */
module Wrappers {
  datatype Option<+T> = None | Some(value: T)
}
