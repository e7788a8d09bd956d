/** The optional value used wherever the pipeline may have nothing to hand on:
    an absent query object, a response text that is not JSON, a malformed
    percent-escape. */
module Wrappers {

  datatype Option<+T> = None | Some(value: T)
}
