/** Optional values, in place of Go's nil and comma-ok results. */
module Wrappers {
  datatype Option<+T> = None | Some(value: T)
}
