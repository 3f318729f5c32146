/** Optional values, used for children that may be missing and for results that may fail. */
module Wrappers {

  datatype Option<+T> = None | Some(value: T)
}
