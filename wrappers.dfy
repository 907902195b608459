/** The optional value a lookup by primary key produces. */
module Wrappers {
  datatype Option<+T> = None | Some(value: T)
}
