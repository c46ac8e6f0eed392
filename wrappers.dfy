/** Optional values: a JavaScript value that may be `null`/`undefined` is `None`. */
module Wrappers {

  datatype Option<+T> = None | Some(value: T)

}
