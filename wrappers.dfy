/** Optional values, for the operations of the scripts that can fail. */
module Wrappers {

  datatype Option<T> = None | Some(value: T)
}
