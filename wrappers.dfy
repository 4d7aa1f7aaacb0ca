/** Optional values, used where the page may or may not find an element. */
module Wrappers {

  datatype Option<+T> = None | Some(value: T)
}
