/**
 * The error taxonomy shared by the services: a sealed family of exceptions,
 * each kind fixing one HTTP status (section 15 of RFC 9110) and a default
 * message, together with the Option and Result wrappers the services return.
 */
module Shared {

  datatype Option<+T> = None | Some(value: T)

  /** A user's ObjectId, as its hex string. */
  type UserId = string
  /** A point in time, in milliseconds since the epoch. */
  type Instant = int

  /** The status the sealed base class would give a kind that does not pick one. */
  const DefaultStatus: nat := 500

  /** The six concrete kinds of the sealed hierarchy. */
  datatype Kind = ResourceNotFound | BadRequest | Unauthorized | Forbidden | Conflict | Validation

  /**
   * One thrown exception: its kind (the constructor) and its message.
   * Only the validation kind carries a list of field errors.
   */
  datatype BaseException =
    | ResourceNotFoundException(message: string)
    | BadRequestException(message: string)
    | UnauthorizedException(message: string)
    | ForbiddenException(message: string)
    | ConflictException(message: string)
    | ValidationException(message: string, errors: seq<string>)
  {
    function KindOf(): Kind {
      match this
      case ResourceNotFoundException(_) => ResourceNotFound
      case BadRequestException(_) => BadRequest
      case UnauthorizedException(_) => Unauthorized
      case ForbiddenException(_) => Forbidden
      case ConflictException(_) => Conflict
      case ValidationException(_, _) => Validation
    }

    /** The HTTP status the exception's kind fixes: always a client error, never the base default. */
    function Status(): (code: nat)
      ensures 400 <= code < 500
      ensures code != DefaultStatus
    {
      match this
      case ResourceNotFoundException(_) => 404
      case BadRequestException(_) => 400
      case UnauthorizedException(_) => 401
      case ForbiddenException(_) => 403
      case ConflictException(_) => 409
      case ValidationException(_, _) => 422
    }
  }

  /** The message each kind uses when the thrower supplies none. */
  function DefaultMessage(k: Kind): (m: string)
    ensures m != ""
  {
    match k
    case ResourceNotFound => "Resource not found"
    case BadRequest => "Bad request"
    case Unauthorized => "Unauthorized access"
    case Forbidden => "Access forbidden"
    case Conflict => "Resource conflict"
    case Validation => "Validation failed"
  }

  /**
   * Constructing an exception of kind `k`, with the message argument either
   * given or left to its default; a validation exception built this way has
   * no field errors.
   */
  function Raise(k: Kind, message: Option<string>): (e: BaseException)
    ensures e.KindOf() == k
    ensures message.Some? ==> e.message == message.value
    ensures message.None? ==> e.message == DefaultMessage(k)
    ensures e.ValidationException? ==> e.errors == []
  {
    var m := if message.Some? then message.value else DefaultMessage(k);
    match k
    case ResourceNotFound => ResourceNotFoundException(m)
    case BadRequest => BadRequestException(m)
    case Unauthorized => UnauthorizedException(m)
    case Forbidden => ForbiddenException(m)
    case Conflict => ConflictException(m)
    case Validation => ValidationException(m, [])
  }

  /** The status is a function of the kind alone, and no two kinds share one. */
  lemma StatusIdentifiesKind(e1: BaseException, e2: BaseException)
    ensures e1.Status() == e2.Status() <==> e1.KindOf() == e2.KindOf()
  {
  }

  /** The status table of the hierarchy, whatever the message and field errors. */
  lemma StatusTable(m: string, errors: seq<string>)
    ensures ResourceNotFoundException(m).Status() == 404
    ensures BadRequestException(m).Status() == 400
    ensures UnauthorizedException(m).Status() == 401
    ensures ForbiddenException(m).Status() == 403
    ensures ConflictException(m).Status() == 409
    ensures ValidationException(m, errors).Status() == 422
  {
  }

  /** Each kind has a default message of its own. */
  lemma DefaultMessagesDistinct(k1: Kind, k2: Kind)
    requires k1 != k2
    ensures DefaultMessage(k1) != DefaultMessage(k2)
  {
  }

  /** The result of a service operation: a value, or the exception it raises. */
  datatype Result<+T> = Ok(value: T) | Err(error: BaseException)
}
