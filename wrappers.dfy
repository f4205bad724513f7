/** The optional value used for "nothing arrived" and "nothing extracted". */
module Wrappers {

  datatype Option<+T> = None | Some(value: T)
}
