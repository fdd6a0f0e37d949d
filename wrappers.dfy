/** The optional value used wherever the handler sees `undefined` or `null`. */
module Wrappers {

  datatype Option<+T> = None | Some(value: T)
}
