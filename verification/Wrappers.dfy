/** Types shared by the models. */
module Wrappers {

  /** A reference that may be null, or a value that may be missing. */
  datatype Option<+T> = None | Some(value: T)

  /** A byte string is a sequence of octets. */
  type Octet = c: char | c as int <= 0xFF witness 'a'
}
