/**
 * Outcomes of the conversion functions. A JavaScript `throw` becomes an
 * `Err` carrying which of the library's errors was raised.
 */
module Errors {

  /** An optional argument, as in `size?: number`. */
  datatype Option<+T> = None | Some(value: T)

  /** The exceptions the conversions can raise. */
  datatype Error =
    /** `TypeError`: the argument is not a hexadecimal string (the `isHexadecimal`/`requireHexadecimal` guards). */
    | NotHexadecimal
    /** `TypeError`: the argument is not BigNumberish (the `requireBigNumberish` guard). */
    | NotBigNumberish
    /** `SyntaxError`: the JavaScript `BigInt(string)` constructor cannot parse its argument. */
    | BigIntSyntax
    /** `Error`: a requested buffer size smaller than the bytes the value needs. */
    | SizeTooSmall(size: int, minSize: nat)

  /** A value, or the exception that was thrown instead. */
  datatype Result<+T> = Ok(value: T) | Err(error: Error)
}
