/** Optional values: a field or lookup that may be absent. */
module Wrappers {
  datatype Option<+T> = None | Some(value: T)
}
