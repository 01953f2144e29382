/** An optional value: a cell that may be absent, or an index that may not exist. */
module Wrappers {

  datatype Option<+T> = None | Some(value: T)
}
