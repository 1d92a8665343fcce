/** The optional value used wherever the extraction engine returns `None`. */
module Wrappers {

  datatype Option<+T> = None | Some(value: T)
}
