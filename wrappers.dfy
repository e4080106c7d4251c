/** Optional values, standing for JavaScript's `null` where the page may lack an element or attribute. */
module Wrappers {
  datatype Option<+T> = None | Some(value: T)
}
