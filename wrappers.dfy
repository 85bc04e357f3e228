/** Optional values, used for "no record matched". */
module Wrappers {
  datatype Option<+T> = None | Some(value: T)
}
