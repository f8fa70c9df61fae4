/** Values shared by every layer: nullable strings, bytes, HTTP status codes and
    the typed validation failures that the controllers translate into responses. */
module Common {

  datatype Option<+T> = None | Some(value: T)

  /** A .NET string reference: `None` stands for `null`. */
  type Text = Option<string>

  newtype byte = b: int | 0 <= b < 256

  /** The HTTP status codes the controllers answer with. */
  datatype Status = OK | Created | NoContent | BadRequest | Unauthorized | NotFound | InternalServerError
  {
    function Code(): (n: int)
      ensures 200 <= n < 600
      ensures n < 300 <==> (this.OK? || this.Created? || this.NoContent?)
    {
      match this
      case OK => 200
      case Created => 201
      case NoContent => 204
      case BadRequest => 400
      case Unauthorized => 401
      case NotFound => 404
      case InternalServerError => 500
    }
  }

  /** The two exception kinds the validators throw, plus an unexpected storage fault. */
  datatype ErrorKind = InputValidation | BusinessValidation | StorageFault

  /** Why a request was refused; the parameter checks carry the offending text, as their messages do. */
  datatype Reason =
    | InvalidCity(city: Text)
    | InvalidDate(date: Text)
    | InvalidNewsId(id: Text)
    | BadNewsFormat
    | NewsNotFound
    | NewsAlreadyCreated
    | NotAuthorized
    | ImageFormatMismatch
    | ImageNotFound
    | ImageAlreadyExists
    | ThumbnailNotFound
    | ImageNotStored
    | BadUserFormat
    | UserNotFound
    | UserAlreadyRegistered

  /** An `InputValidationException` or `BusinessValidationException` with its status code. */
  datatype Failure = Failure(kind: ErrorKind, status: Status, reason: Reason)

  /** The result of a throw-on-first-failure validation chain. */
  datatype Outcome = Ok | Fail(failure: Failure)

  function InputFailure(reason: Reason): Failure
  {
    Failure(InputValidation, BadRequest, reason)
  }

  function BusinessFailure(status: Status, reason: Reason): Failure
  {
    Failure(BusinessValidation, status, reason)
  }
}
