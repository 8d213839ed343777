/** Optional values: JavaScript's `undefined` for an array index past the end
    and for a theme that has not been resolved yet. */
module Wrappers {

  datatype Option<+T> = None | Some(value: T)
}
