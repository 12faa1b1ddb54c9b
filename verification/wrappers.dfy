/** The optional value used throughout the model: `None` is JavaScript's
    "no usable value" (an unparseable date, a missing index, a null string). */
module Wrappers {

  datatype Option<+T> = None | Some(value: T)
}
