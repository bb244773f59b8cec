/** Optional values: a missing cell, a failed parse, a search that found nothing. */
module Wrappers {
  datatype Option<+T> = None | Some(value: T)
}
