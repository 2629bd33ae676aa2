/** The "none available" result: an empty handle is modelled as `None`. */
module Wrappers {

  datatype Option<+T> = None | Some(value: T)
}
