/** Failure-carrying results shared by every module of the model.
    Each `Error` stands for one exception the Python code can raise. */
module Wrappers {

  datatype Option<+T> = None | Some(value: T)

  /** The exceptions of the modelled code, one constructor per cause. */
  datatype Error =
    | NotCoprime          // `assert g == 1` in mulinv
    | ZeroModulus         // `pow(_, _, 0)` or `x % 0`
    | ShortLengthPrefix   // `struct.unpack('>I', ...)` given fewer than 4 bytes
    | WrongFieldCount     // `head, e, mod = parts` with a part count other than 3
    | UnsupportedKeyFormat // `assert head == b'ssh-rsa'`

  datatype Result<+T> = Ok(value: T) | Err(error: Error)
}
