/** The optional value used for the codec's partial results and for optional parameters. */
module Wrappers {

  datatype Option<+T> = None | Some(value: T)
}
