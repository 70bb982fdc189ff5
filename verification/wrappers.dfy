/** The optional value used where the program tests a result for `None`. */
module Wrappers {

  datatype Option<+T> = None | Some(value: T)
}
