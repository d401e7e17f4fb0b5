/** The reply of one pull: an element, or the end of the sequence. */
module Wrappers {

  datatype Option<+T> = None | Some(value: T)
}
