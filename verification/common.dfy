/** Shared result types of the three services: an optional record (the
    services' `null`), a success-or-error result (the services' exceptions),
    the error kinds the services raise, and a reply pairing a result with the
    record store as it stands after the operation. */
module Common {

  /** A record that may be absent; the services return `null` for `None`. */
  datatype Option<+T> = None | Some(value: T)

  /** Either the value an operation returns or the exception it throws. */
  datatype Result<+T, +E> = Success(value: T) | Failure(error: E)

  /** The HTTP exceptions the services throw, with the message each carries.
      `Unauthorized` is thrown without a message. */
  datatype Error =
    | Conflict(msg: string)
    | BadRequest(msg: string)
    | NotFound(msg: string)
    | Unauthorized

  /** What one service call produces: its result and the post-state of the store. */
  datatype Response<+T, +S> = Response(result: Result<T, Error>, state: S)
}
