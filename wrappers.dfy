/** The optional value that stands for Python's `None` results and swallowed exceptions. */
module Wrappers {

  datatype Option<+T> = None | Some(value: T)
}
