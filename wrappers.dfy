/** The optional value used for a token's style type, which the tokenizer may leave unset. */
module Wrappers {

  datatype Option<+T> = None | Some(value: T)
}
