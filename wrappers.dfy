/** A value that may be absent, as Python's `None` stands for "not given". */
module Wrappers {

  datatype Option<+T> = None | Some(value: T)
}
