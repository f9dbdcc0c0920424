/** General-purpose result wrappers shared by the page models. */
module Wrappers {

  /** A value that may be absent: router state a page was opened without, or
      the result of a parse that did not match. */
  datatype Option<T> = None | Some(value: T)
}
