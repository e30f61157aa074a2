/** The optional value used wherever the service reads something that may be
    absent: a queried element, an attribute, a regex match, a parsed payload. */
module Wrappers {

  datatype Option<+T> = None | Some(value: T)
}
