/** The Option type used for Python's `None`-or-value and for parse results. */
module Wrappers {

  datatype Option<+T> = None | Some(value: T)
}
