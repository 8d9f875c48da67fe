/** The optional value used where the JavaScript code returns or holds `null`. */
module Wrappers {

  datatype Option<+T> = None | Some(value: T)

}
