/** The optional value used wherever the program tests for a missing or
    malformed payload. */
module Wrappers {

  datatype Option<+T> = None | Some(value: T)

}
