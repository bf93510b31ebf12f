/** The optional value used wherever the C code returns or accepts a null pointer. */
module Wrappers {
  datatype Option<+T> = None | Some(value: T)
}
