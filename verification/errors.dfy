/** Errors: the body of every error response, an HTTP status with its
    numeric code, and the exceptions the factories of the body can raise.
    The body's static factories take non-null arguments (a null one raises
    a NullPointerException naming it, in parameter order), copy the status's
    code into the body and stamp it with the current time. */
module Errors {
  import Common

  /** The HTTP statuses the application answers with. */
  datatype HttpStatus = OkStatus | Created | NoContent | BadRequest | NotFoundStatus | InternalServerError
  {
    /** HttpStatus.value(): the numeric code. */
    function Value(): (code: int)
      ensures 200 <= code < 600
      ensures code < 300 <==> this in {OkStatus, Created, NoContent}
      ensures 400 <= code < 500 <==> this in {BadRequest, NotFoundStatus}
    {
      match this
      case OkStatus => 200
      case Created => 201
      case NoContent => 204
      case BadRequest => 400
      case NotFoundStatus => 404
      case InternalServerError => 500
    }
  }

  /** HttpStatus.resolve: the status with a code, if the application uses
      one. */
  function Resolve(code: int): (r: Common.Option<HttpStatus>)
    ensures r.Some? ==> r.value.Value() == code
  {
    if code == 200 then Common.Some(OkStatus)
    else if code == 201 then Common.Some(Created)
    else if code == 204 then Common.Some(NoContent)
    else if code == 400 then Common.Some(BadRequest)
    else if code == 404 then Common.Some(NotFoundStatus)
    else if code == 500 then Common.Some(InternalServerError)
    else Common.None
  }

  /** A status is recovered from its code: distinct statuses have distinct
      codes. */
  lemma ResolveValue(s: HttpStatus)
    ensures Resolve(s.Value()) == Common.Some(s)
  {
  }

  /** The two runtime exceptions the error bodies' factories throw. */
  datatype Exception = NullPointer(message: string) | IllegalArgument(message: string)

  /** A call that returns a value or throws. */
  datatype Thrown<+T> = Returned(value: T) | Threw(exception: Exception)

  /** The record sent as an error response's body: code, message, status,
      time of creation and optional details. */
  datatype ErrorBody = ErrorBody(
    code: int,
    message: string,
    status: HttpStatus,
    timestamp: Common.Timestamp,
    details: Common.Option<string>)

  /** The NullPointerExceptions a null argument for a non-null parameter
      raises, one per parameter name. */
  const NullMessage := NullPointer("message is marked non-null but is null")
  const NullStatus := NullPointer("status is marked non-null but is null")
  const NullDetails := NullPointer("details is marked non-null but is null")

  /** Error.of(message, status): with both present, a body whose code is the
      status's, carrying the message unchanged, the time of the call and no
      details; a null message is reported before a null status. */
  function Of(message: Common.Option<string>, status: Common.Option<HttpStatus>, now: Common.Timestamp): (r: Thrown<ErrorBody>)
    ensures r.Returned? <==> message.Some? && status.Some?
    ensures message.None? ==> r == Threw(NullPointer("message is marked non-null but is null"))
    ensures message.Some? && status.None? ==> r == Threw(NullPointer("status is marked non-null but is null"))
    ensures r.Returned? ==>
      && r.value.code == status.value.Value()
      && r.value.message == message.value
      && r.value.status == status.value
      && r.value.timestamp == now
      && r.value.details.None?
  {
    if message.None? then Threw(NullMessage)
    else if status.None? then Threw(NullStatus)
    else Returned(ErrorBody(status.value.Value(), message.value, status.value, now, Common.None))
  }

  /** Error.of(message, status, details): as the two-argument factory, with
      the details carried; a null details argument is reported last. */
  function OfDetailed(message: Common.Option<string>, status: Common.Option<HttpStatus>, details: Common.Option<string>, now: Common.Timestamp)
    : (r: Thrown<ErrorBody>)
    ensures r.Returned? <==> message.Some? && status.Some? && details.Some?
    ensures message.None? ==> r == Threw(NullPointer("message is marked non-null but is null"))
    ensures message.Some? && status.None? ==> r == Threw(NullPointer("status is marked non-null but is null"))
    ensures message.Some? && status.Some? && details.None? ==> r == Threw(NullPointer("details is marked non-null but is null"))
    ensures r.Returned? ==>
      && r.value.code == status.value.Value()
      && r.value.message == message.value
      && r.value.status == status.value
      && r.value.timestamp == now
      && r.value.details == details
  {
    if message.None? then Threw(NullMessage)
    else if status.None? then Threw(NullStatus)
    else if details.None? then Threw(NullDetails)
    else Returned(ErrorBody(status.value.Value(), message.value, status.value, now, details))
  }

  /** The detailed factory adds the details and nothing else: given
      details, it returns where the plain factory returns, with the same body
      but for the details, and otherwise throws what the plain one throws. */
  lemma OfDetailedExtendsOf(message: Common.Option<string>, status: Common.Option<HttpStatus>, details: string, now: Common.Timestamp)
    ensures OfDetailed(message, status, Common.Some(details), now).Returned? <==> Of(message, status, now).Returned?
    ensures Of(message, status, now).Returned? ==>
      OfDetailed(message, status, Common.Some(details), now).value
        == Of(message, status, now).value.(details := Common.Some(details))
    ensures Of(message, status, now).Threw? ==>
      OfDetailed(message, status, Common.Some(details), now) == Of(message, status, now)
  {
  }

  /** A body's code and status agree: the status can be read back from the
      code. */
  lemma OfCodeResolvesToStatus(message: string, status: HttpStatus, now: Common.Timestamp)
    ensures Resolve(Of(Common.Some(message), Common.Some(status), now).value.code) == Common.Some(status)
  {
    ResolveValue(status);
  }
}
