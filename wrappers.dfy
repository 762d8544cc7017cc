/** Optional values: a prompt answer that may be cancelled, a regex group that may not participate. */
module Wrappers {

  datatype Option<+T> = None | Some(value: T)
}
