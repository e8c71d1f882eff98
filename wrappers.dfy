/** The optional value used wherever a computation of the modelled system can
    come back empty (a decoder that refuses its input, a failed decryption). */
module Wrappers {

  datatype Option<+T> = None | Some(value: T)
}
