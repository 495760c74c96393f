/** The nullable results of the JavaScript code (`string | null`, `User | null`). */
module Wrappers {

  datatype Option<+T> = None | Some(value: T)
}
