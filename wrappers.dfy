/** The optional value used for nullable fields and Optional results. */
module Wrappers {
  datatype Option<+T> = None | Some(value: T)
}
