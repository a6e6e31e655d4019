/** The optional value used for "the first match, if any" and for absent
    fields of an inbound message. */
module Wrappers {

  datatype Option<+T> = None | Some(value: T)
}
