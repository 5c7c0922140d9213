/** Optional values for the session model. */
module Wrappers {

  /** Option: a missing form field or an unknown user. */
  datatype Option<+T> = None | Some(value: T)
}
