/** Optional values, used wherever the source tests for presence. */
module Wrappers {
  datatype Option<+T> = None | Some(value: T)
}
