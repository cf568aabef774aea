/** The optional value used for every "may be absent" result of the model. */
module Wrappers {

  datatype Option<+T> = None | Some(value: T)
}
