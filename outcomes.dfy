/** Error values and the Result/Option wrappers shared by every module.
    Rejections the source signals with an exception become an `Err` value. */
module Outcomes {

  /** The failures the modelled code can raise. */
  datatype Error =
    | InvalidSymbol(symbol: char)            // KeyError from a base-to-index lookup
    | UnknownToken(token: string)            // KeyError from the modified-nucleotide table
    | ShapeMismatch(rows: nat, pwmRows: nat) // numpy cannot broadcast the one-hot matrix against the PWM

  datatype Result<T> = Ok(value: T) | Err(error: Error)

  datatype Option<T> = None | Some(value: T)
}
