/** The optional value used wherever the library answers "nothing found". */
module Wrappers {

  datatype Option<+T> = None | Some(value: T)
}
