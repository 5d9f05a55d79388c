/** Optional values, for lookups that may find nothing (a missing attribute,
    an element that is not in the document, a text that does not parse). */
module Wrappers {

  datatype Option<+T> = None | Some(value: T)
}
