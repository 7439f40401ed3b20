/** Result and option types shared by every part of the model. */
module Outcome {

  /** A lookup that may find nothing (the source returns a null node). */
  datatype Option<+T> = None | Some(value: T)

  /** The failure conditions the banking core reports to its caller. */
  datatype Error =
    | DuplicateKey
    | AccountNotFound
    | InvalidAmount
    | InsufficientFunds
    | SameAccount
    | EmptyQueue

  /** Either the new value (usually the new bank state) or the reason nothing changed. */
  datatype Result<+T> = Ok(value: T) | Err(error: Error)
}
