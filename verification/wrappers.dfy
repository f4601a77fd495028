/** The optional-value datatype used across the model (a missing element,
    an absent attribute, no pending timer). */
module Wrappers {

  datatype Option<+T> = None | Some(value: T)
}
