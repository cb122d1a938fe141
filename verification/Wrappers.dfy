/** The conventional optional value, for results the source signals with a sentinel. */
module Wrappers {
  datatype Option<+T> = None | Some(value: T)
}
