/** The optional value used where the scraper relies on a parse that may fail. */
module Wrappers {

  datatype Option<+T> = None | Some(value: T)
}
