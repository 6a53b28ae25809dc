/** The optional-value datatype shared by the parsers and the updater state. */
module Wrappers {

  datatype Option<+T> = None | Some(value: T)

}
