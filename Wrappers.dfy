/** The optional value used where a decoding can fail. */
module Wrappers {
  datatype Option<+T> = None | Some(value: T)
}
