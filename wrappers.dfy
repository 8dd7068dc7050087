/** Optional values: used where the source tests whether a file exists before reading it. */
module Wrappers {
  datatype Option<+T> = None | Some(value: T)
}
