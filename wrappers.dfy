/** The optional value used for "not found" and "nothing emitted". */
module Wrappers {

  datatype Option<+T> = None | Some(value: T)
}
