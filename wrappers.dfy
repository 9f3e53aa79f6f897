/** The optional value used where the C code passes NULL for an absent
    topic, or may send no message at all. */
module Wrappers {

  datatype Option<+T> = None | Some(value: T)
}
