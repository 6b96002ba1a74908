/** Optional values, used for map lookups and for operations that can fail. */
module Wrappers {

  datatype Option<+T> = None | Some(value: T)
}
