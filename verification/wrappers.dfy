/** The optional value used wherever the modelled code returns `None`. */
module Wrappers {

  datatype Option<+T> = None | Some(value: T)
}
