/** Optional values: a value that is present or absent. */
module Wrappers {

  datatype Option<+T> = None | Some(value: T)
}
