/** Small failure-carrying datatypes shared by the parsers and recognizers. */
module Wrappers {

  datatype Option<+T> = None | Some(value: T)

  /** The outcome of a parse: a value, or a failure reported at the number
      of tokens that were still unconsumed when the parse got stuck. */
  datatype Result<+T> = Ok(value: T) | Fail(remaining: nat)
}
