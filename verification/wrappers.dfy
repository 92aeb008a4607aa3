/** Optional values: Go's nil-or-present slices. */
module Wrappers {

  datatype Option<+T> = None | Some(value: T)
}
