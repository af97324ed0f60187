/** The optional value used for `null`-able lookups and for calls that throw. */
module Wrappers {
  datatype Option<+T> = None | Some(value: T)
}
