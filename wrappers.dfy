/** The optional value used throughout the model for XML attributes and
    children that may be absent (Python's `None`). */
module Wrappers {

  datatype Option<+T> = None | Some(value: T)
}
