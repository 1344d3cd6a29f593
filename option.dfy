/** The optional value used wherever the Python code has `None` or a missing key. */
module Opt {
  datatype Option<+T> = None | Some(value: T)
}
