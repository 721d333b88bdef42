/** The optional values the web handlers pass around: a form field that is
    missing or does not parse, a price overview the store did not return. */
module Wrappers {
  datatype Option<T> = None | Some(value: T)
}
