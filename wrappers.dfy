/** The optional value shared by the parser and the classifier. */
module Wrappers {

  datatype Option<+T> = None | Some(value: T)
}
