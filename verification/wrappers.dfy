/** The model's stand-in for Python's `None`: an optional value. */
module Wrappers {

  datatype Option<+T> = None | Some(value: T)
}
