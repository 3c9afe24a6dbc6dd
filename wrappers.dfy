/** The optional value used wherever the scripts return `None` or fail with an exception. */
module Wrappers {

  datatype Option<+T> = None | Some(value: T)

}
