/** Optional values, used for a storage key that may be absent and for a quote that may not be shown. */
module Wrappers {
  datatype Option<+T> = None | Some(value: T)
}
