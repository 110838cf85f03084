/** Optional values, for an input that may be absent. */
module Wrappers {

  datatype Option<T> = None | Some(value: T)
}
