/** The optional value used where the roster answers "not found". */
module Wrappers {

  datatype Option<T> = None | Some(value: T)
}
