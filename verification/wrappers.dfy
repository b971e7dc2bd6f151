/** The optional value used wherever the program reports "found" / "not found". */
module Wrappers {

  datatype Option<+T> = None | Some(value: T)
}
