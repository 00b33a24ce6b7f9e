/** The optional value used for the answer of the streaming-platform query. */
module Wrappers {

  datatype Option<+T> = None | Some(value: T)

}
