/** The optional value returned where the queue hands out a pointer that may be null. */
module Wrappers {

  /** `None` plays the null pointer; `Some(v)` carries what the pointer designates. */
  datatype Option<+T> = None | Some(value: T)
}
