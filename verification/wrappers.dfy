/** Small shared types: an optional value, standing for a C pointer that may be NULL. */
module Wrappers {

  /** `None` plays the part of a NULL pointer. */
  datatype Option<+T> = None | Some(value: T)
}
