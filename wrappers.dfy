/** The optional value used for `None` in the session state and for handlers that cannot run. */
module Wrappers {

  datatype Option<+T> = None | Some(value: T)

}
