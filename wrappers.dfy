/** The optional value used wherever the handlers see Python's `None`. */
module Wrappers {

  datatype Option<+T> = None | Some(value: T)
}
