/** The optional value used wherever the source returns `None` or raises a
    lookup error instead of producing a value. */
module Wrappers {

  datatype Option<+T> = None | Some(value: T)
}
