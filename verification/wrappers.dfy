/** The optional value used wherever the source returns `null` or reads a
    possibly missing field. */
module Wrappers {

  datatype Option<+T> = None | Some(value: T)
}
