/** Optional values, used for JavaScript's "missing" values (undefined, null, NaN). */
module Wrappers {

  datatype Option<+T> = None | Some(value: T)
}
