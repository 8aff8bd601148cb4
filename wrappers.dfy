/** Option, for values the source holds as `T | null` or leaves unset. */
module Wrappers {

  datatype Option<+T> = None | Some(value: T)
}
