/** Failure-carrying datatypes shared by the whole model. */
module Wrappers {

  datatype Option<+T> = None | Some(value: T)

  /** The single syntax-failure outcome: every InvalidIDLSyntaxError, every
      Python IndexError/AttributeError the parser can hit, is this. */
  datatype Result<+T> = Ok(value: T) | Err
}
