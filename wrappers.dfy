/** The optional value used where the source returns nothing or a position may be missing. */
module Wrappers {

  datatype Option<+T> = None | Some(value: T)

}
