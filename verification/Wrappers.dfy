/** The Option datatype the other modules share for values Python would leave as None. */
module Wrappers {
  datatype Option<+T> = None | Some(value: T)
}
