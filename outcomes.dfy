/**
 * Result shapes shared by the whole model.
 *
 * The TypeScript functions either return a value (possibly `undefined`) or
 * throw an `Error`; both outcomes are made explicit here so that no
 * precondition has to rule out the error paths.
 */
module Outcomes {

  /** `T | undefined` */
  datatype Option<+T> = None | Some(value: T)

  /** What a call does: it returns a value, or it throws an `Error` with a message. */
  datatype Completion<+T> = Returned(value: T) | Threw(message: string)

  /** The `{success: true} | {success: false, error}` responses of the command helpers. */
  datatype Response = Success | Failure(error: string)

  /** Throws a failure's error when the caller asked for that; otherwise
      hands the response back. */
  function Raise(response: Response, throwError: bool): (r: Completion<Response>)
    ensures r.Threw? <==> response.Failure? && throwError
    ensures r.Threw? ==> r.message == response.error
    ensures r.Returned? ==> r.value == response
  {
    if response.Failure? && throwError then Threw(response.error) else Returned(response)
  }
}
