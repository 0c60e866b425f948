/** Optional values: the model's stand-in for JavaScript's `null`/`undefined`
    and for Python's missing entries. */
module Wrappers {

  datatype Option<+T> = None | Some(value: T)
}
