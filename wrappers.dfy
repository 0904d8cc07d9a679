/** Optional values: a search that may find nothing, an allocation that may fail. */
module Wrappers {

  /** `None` plays the part of the C code's NULL pointer. */
  datatype Option<+T> = None | Some(value: T)
}
