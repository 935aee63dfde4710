/** Optional values, used for parse results and for the clamp step that can raise. */
module Wrappers {
  datatype Option<+T> = None | Some(value: T)
}
