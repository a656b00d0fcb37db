/** The Option datatype shared by the navigation and contact-form models. */
module Wrappers {
  datatype Option<+T> = None | Some(value: T)
}
