/** The optional value used wherever the source returns `undefined` for "not found". */
module Wrappers {

  datatype Option<+T> = None | Some(value: T)

}
