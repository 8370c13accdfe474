/** Optional values, for what the source keeps as a possibly-nil pointer. */
module Wrappers {
  datatype Option<+T> = None | Some(value: T)
}
