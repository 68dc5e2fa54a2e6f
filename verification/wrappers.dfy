/** The optional value used wherever the program reads a possibly missing entry. */
module Wrappers {

  datatype Option<+T> = None | Some(value: T)
}
