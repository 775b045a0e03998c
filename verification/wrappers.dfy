/** Optional values, for the nullable release date and for parsers that can fail. */
module Wrappers {

  datatype Option<+T> = None | Some(value: T)
}
