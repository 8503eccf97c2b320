/** A value that may be absent, where the C program returns NULL or -1. */
module Wrappers {
  datatype Option<+T> = None | Some(value: T)
}
