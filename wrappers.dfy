/** The optional value used for results that can fail. */
module Wrappers {

  datatype Option<+T> = None | Some(value: T)
}
