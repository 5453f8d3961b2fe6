/** Optional values, used for absent headers, missing DOM elements and "no match" results. */
module Wrappers {

  datatype Option<+T> = None | Some(value: T)
}
