/** Optional values, used for the results of library calls that can fail. */
module Wrappers {

  datatype Option<+T> = None | Some(value: T)
}
