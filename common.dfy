/** Small value types shared by the back end and the client model. */
module Common {

  /** The id of an account, which every attendance entry refers to. */
  type UserId = nat

  /** A value that may be absent (`undefined` or `null` in JavaScript). */
  datatype Option<T> = None | Some(value: T)

  /**
   * What an Express handler answers: a success status with its JSON payload,
   * or an error status with the `message` field of the JSON body.
   */
  datatype Reply<T> = Ok(status: nat, value: T) | Rejected(status: nat, message: string)

  /** The outcome of a client-side HTTP request: the response body, or a failure. */
  datatype Fetch<T> = Received(body: T) | Failed
}
