/** An optional value: a database `.first()` that may find no row, a parse that may fail. */
module Wrappers {

  datatype Option<+T> = None | Some(value: T)
}
