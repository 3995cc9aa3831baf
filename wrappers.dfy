/** The optional value used for `null`-or-object state and for results that
    may be absent. */
module Wrappers {

  datatype Option<+T> = None | Some(value: T)
}
