/** Optional values: a missing pod field, a timestamp that does not parse. */
module Wrappers {
  datatype Option<+T> = None | Some(value: T)
}
