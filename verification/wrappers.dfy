/** The optional value used wherever the JavaScript code has `null`, a missing
    argument or a failed decode. */
module Wrappers {

  datatype Option<+T> = None | Some(value: T)
}
