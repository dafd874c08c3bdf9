/** The optional value used where the service raises on malformed input. */
module Wrappers {

  datatype Option<+T> = None | Some(value: T)

}
