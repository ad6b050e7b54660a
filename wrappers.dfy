/** Optional values, for nullable returns and error paths. */
module Wrappers {

  datatype Option<T> = None | Some(value: T)
}
