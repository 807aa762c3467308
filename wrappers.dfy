/** The optional value used wherever the source uses `null` or a failed parse. */
module Wrappers {

  datatype Option<+T> = None | Some(value: T)
}
