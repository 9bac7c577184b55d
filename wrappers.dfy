/** The optional value used wherever the scraper yields `None` for something missing. */
module Wrappers {

  datatype Option<+T> = None | Some(value: T)
}
