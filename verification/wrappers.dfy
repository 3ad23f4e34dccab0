/** The optional result of a read that can fail. */
module Wrappers {

  datatype Option<+T> = None | Some(value: T)
}
