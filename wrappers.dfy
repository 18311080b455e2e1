/** The optional value returned where the tagger can come back empty-handed. */
module Wrappers {

  datatype Option<+T> = None | Some(value: T)

}
