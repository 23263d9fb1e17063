/** The optional value used for "no match" and "no consequent". */
module Wrappers {

  datatype Option<+T> = None | Some(value: T)

}
