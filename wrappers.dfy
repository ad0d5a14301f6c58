/** Optional values, for the scripts' `None` results and for failures that
    Python reports by raising. */
module Wrappers {

  datatype Option<T> = None | Some(value: T)
}
