/** The optional value used wherever PHP would hand back `null`. */
module Wrappers {

  datatype Option<+T> = None | Some(value: T)
}
