/** Optional values: a JSON field that may be absent, or an optional-chaining read that may give `undefined`. */
module Wrappers {

  datatype Option<+T> = None | Some(value: T)
}
