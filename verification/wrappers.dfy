/** The optional value used wherever the source returns `null` or a "not found" index. */
module Wrappers {

  datatype Option<+T> = None | Some(value: T)
}
