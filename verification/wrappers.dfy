/** The optional value used wherever the source stores `null` or a regular
    expression match result that may be `null`. */
module Wrappers {

  datatype Option<+T> = None | Some(value: T)
}
