/** Optional values: a pandas cell that may be NaN, a lookup that may find nothing. */
module Wrappers {

  datatype Option<+T> = None | Some(value: T)
}
