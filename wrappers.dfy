/** The optional value used wherever the reader returns `None`. */
module Wrappers {

  datatype Option<+T> = None | Some(value: T)
}
