/** The optional value used for Go's nil-able values and absent map entries. */
module Wrappers {

  datatype Option<+T> = None | Some(value: T)
}
