/** The optional value used for "a reading was selected" / "an argument was accepted". */
module Wrappers {

  datatype Option<+T> = None | Some(value: T)
}
