/** Failure values shared by the order store and the command layer on top of it. */
module Failures {

  /** An optional value: a lookup that may find nothing. */
  datatype Option<+T> = None | Some(value: T)

  /** Every error the order store and its command layer can report. */
  datatype Error =
      // Raised by the order store.
    | ExpiredOnArrival        // "order expiration date in the past"
    | AlreadyAccepted         // "order has been already accepted"
    | NotReturnable           // "the order was given or the expiration date is not over yet"
    | OrderNotFound           // "the order was not found" / "order was not found"
    | BadOrderId(text: string) // strconv.Atoi rejected one of the requested identifiers
    | AlreadyGiven            // "order has already been given"
    | OrderExpired            // "order expired"
    | WrongClient             // "order does not belong to the client"
    | NotAllFound             // "not all orders are found"
    | RefundRejected          // "it has been more than 2 days since it was given or order was not given"
    | PageNotFound            // "page does not exists"
    | SlicePanic              // a Go runtime panic: slice bounds out of range
      // Raised by the command layer before the store is touched.
    | InvalidOrderId
    | InvalidClientId
    | InvalidAvailableTime
    | UnknownPackaging
    | WeightExceedsLimit(packaging: string)
    | MissingOrderIds
    | InvalidLimit
    | InvalidPage

  /** Either a value or the error that prevented it. */
  datatype Result<+T> = Ok(value: T) | Err(error: Error) {

    predicate IsFailure() {
      Err?
    }

    function PropagateFailure<U>(): Result<U>
      requires Err?
    {
      Err(error)
    }

    function Extract(): T
      requires Ok?
    {
      value
    }
  }
}
