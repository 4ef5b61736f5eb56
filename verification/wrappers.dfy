/** Optional values, used where a lookup or a search may find nothing. */
module Wrappers {

  datatype Option<+T> = None | Some(value: T)

}
