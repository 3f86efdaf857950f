/** The optional value shared by the modules that model a nullable pointer or a failed probe. */
module Wrappers {
  datatype Option<T> = None | Some(value: T)
}
