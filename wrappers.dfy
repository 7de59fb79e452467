/** Optional values, used for the arguments a caller may leave out. */
module Wrappers {

  datatype Option<+T> = None | Some(value: T)
}
