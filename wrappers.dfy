/** Optional values: a JavaScript `null`/`undefined` or a value that is absent. */
module Wrappers {
  datatype Option<+T> = None | Some(value: T)
}
