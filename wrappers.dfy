/** The optional value used for a text field that may or may not hold a parsable number,
    and for the pending selection that is either set or null. */
module Wrappers {

  datatype Option<+T> = None | Some(value: T)
}
