/** The optional value used wherever the source returns `None`, omits a
    dictionary key, or produces a value that is not a number. */
module Wrappers {

  datatype Option<+T> = None | Some(value: T)
}
