/** The optional value used for matchers that may fail and for the one operation that can throw. */
module Wrappers {

  datatype Option<+T> = None | Some(value: T)
}
