/** The optional value used wherever the source returns `null` or an empty ref. */
module Wrappers {

  datatype Option<+T> = None | Some(value: T)

}
