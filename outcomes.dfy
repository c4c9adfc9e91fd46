/** Result and error values shared by every module of the model. */
module Outcomes {

  datatype Option<T> = None | Some(value: T)

  /** The ways an operation of the money-amount core can fail. */
  datatype Error =
    | NotFound(code: string)       // no active exchange-rate row with this code (DoesNotExist)
    | MultipleFound(code: string)  // more than one active row with this code (MultipleObjectsReturned)
    | DivisionByZero               // a Decimal division of a nonzero amount by a zero exchange rate
    | InvalidOperation             // the Decimal division 0 / 0 (DivisionUndefined)
    | TypeError                    // an arithmetic step on a missing (None) amount
    | AttributeError               // `.upper()` called on something that is not a string
    | NotImplemented               // the sentinel an operator returns for an unsupported operand

  datatype Result<T> = Ok(value: T) | Err(error: Error)
}
