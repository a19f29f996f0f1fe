/** The optional value used where the source returns either a value or Python's None. */
module Wrappers {

  datatype Option<+T> = None | Some(value: T)

}
