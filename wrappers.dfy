/** Optional values: an absent C string (`NULL`) is `None`, never the empty string. */
module Wrappers {

  datatype Option<+T> = None | Some(value: T)
}
