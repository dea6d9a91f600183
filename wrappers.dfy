/** Optional values, used for lookups that can miss and for library calls that can fail. */
module Wrappers {

  datatype Option<+T> = None | Some(value: T)
}
