/** Optional values, standing in for the nullable pointers the C code returns. */
module Wrappers {
  datatype Option<+T> = None | Some(value: T)
}
