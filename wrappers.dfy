/** Optional values, standing for JavaScript's absent-or-present props. */
module Wrappers {

  datatype Option<+T> = None | Some(value: T)
}
