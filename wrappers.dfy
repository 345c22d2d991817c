/** Optional values: a paragraph that may be missing, a date that may not parse. */
module Wrappers {

  datatype Option<+T> = None | Some(value: T)
}
