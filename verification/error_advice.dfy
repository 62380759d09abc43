/** ErrorAdvice: how a failed request is turned into a response. A
    NotFoundException becomes a 404 whose body carries the exception's
    message; a failed request validation becomes a 400 whose message lists
    every field error as "field: message", separated by ", ", and whose
    details hold the validation exception's own message. */
module ErrorAdvice {
  import opened Common
  import opened Text
  import Errors
  import UserService
  import MovieService

  /** A response: its status and its body. */
  datatype Response = Response(status: Errors.HttpStatus, body: Errors.ErrorBody)

  /** A field error of a binding result: the field's name and the default
      message of the violated constraint, which may be null. */
  datatype FieldError = FieldError(field: string, defaultMessage: Option<string>)

  /** field + ": " + defaultMessage, where a null message is concatenated as
      the four letters "null". */
  function Render(e: FieldError): (r: string)
    ensures e.field + ": " <= r
    ensures e.defaultMessage.Some? ==> r == e.field + ": " + e.defaultMessage.value
    ensures e.defaultMessage.None? ==> r == e.field + ": null"
  {
    e.field + ": " + (if e.defaultMessage.Some? then e.defaultMessage.value else "null")
  }

  function RenderAll(errors: seq<FieldError>): (r: seq<string>)
    ensures |r| == |errors|
    ensures forall i | 0 <= i < |errors| :: r[i] == Render(errors[i])
  {
    seq(|errors|, i requires 0 <= i < |errors| => Render(errors[i]))
  }

  /** The message of a validation failure. */
  function ValidationMessage(errors: seq<FieldError>): string
  {
    Join(RenderAll(errors), ", ")
  }

  /** handleNotFoundException: status NOT_FOUND, and a body with code 404,
      the exception's message unchanged and no details. */
  function HandleNotFound(message: string, now: Timestamp): (r: Response)
    ensures r.status == Errors.NotFoundStatus && r.body.status == Errors.NotFoundStatus
    ensures r.body.code == 404
    ensures r.body.message == message
    ensures r.body.details.None? && r.body.timestamp == now
  {
    Response(Errors.NotFoundStatus, Errors.Of(Some(message), Some(Errors.NotFoundStatus), now).value)
  }

  /** handleValidationException: status BAD_REQUEST, and a body with code
      400, the joined field errors as message and the exception's message as
      details. */
  function HandleValidation(errors: seq<FieldError>, exceptionMessage: string, now: Timestamp): (r: Response)
    ensures r.status == Errors.BadRequest && r.body.status == Errors.BadRequest
    ensures r.body.code == 400
    ensures r.body.message == ValidationMessage(errors)
    ensures r.body.details == Some(exceptionMessage) && r.body.timestamp == now
  {
    Response(Errors.BadRequest, Errors.OfDetailed(Some(ValidationMessage(errors)), Some(Errors.BadRequest), Some(exceptionMessage), now).value)
  }

  /** Every part occurs in the joined string. */
  lemma {:induction false} JoinContainsParts(parts: seq<string>, sep: string)
    ensures forall i | 0 <= i < |parts| :: Contains(Join(parts, sep), parts[i])
    decreases |parts|
  {
    if |parts| >= 2 {
      var rest := Join(parts[1..], sep);
      var whole := Join(parts, sep);
      assert whole == parts[0] + sep + rest;
      JoinContainsParts(parts[1..], sep);
      assert parts[0] <= whole[0..];
      forall i | 1 <= i < |parts|
        ensures Contains(whole, parts[i])
      {
        assert parts[1..][i - 1] == parts[i];
        var j :| 0 <= j <= |rest| && parts[i] <= rest[j..];
        var off := |parts[0]| + |sep|;
        assert whole[off + j..] == rest[j..];
      }
    } else if |parts| == 1 {
      assert parts[0] <= Join(parts, sep)[0..];
    }
  }

  /** The joined string is as long as the parts plus one separator between
      each two of them. */
  lemma {:induction false} JoinLength(parts: seq<string>, sep: string)
    requires |parts| >= 1
    ensures |Join(parts, sep)| == SumOfLengths(parts) + (|parts| - 1) * |sep|
    decreases |parts|
  {
    if |parts| >= 2 {
      JoinLength(parts[1..], sep);
    }
  }

  function SumOfLengths(parts: seq<string>): nat
  {
    if parts == [] then 0 else |parts[0]| + SumOfLengths(parts[1..])
  }

  /** A character occurs in the joined string as often as in the parts
      together, plus its occurrences in each separator. */
  lemma {:induction false} JoinCount(c: char, parts: seq<string>, sep: string)
    requires |parts| >= 1
    ensures Count(c, Join(parts, sep)) == SumOfCounts(c, parts) + (|parts| - 1) * Count(c, sep)
    decreases |parts|
  {
    if |parts| >= 2 {
      JoinCount(c, parts[1..], sep);
      CountAppend(c, parts[0], sep);
      CountAppend(c, parts[0] + sep, Join(parts[1..], sep));
    }
  }

  function SumOfCounts(c: char, parts: seq<string>): nat
  {
    if parts == [] then 0 else Count(c, parts[0]) + SumOfCounts(c, parts[1..])
  }

  lemma {:induction false} NoCommaSumsToZero(parts: seq<string>)
    requires forall i | 0 <= i < |parts| :: Count(',', parts[i]) == 0
    ensures SumOfCounts(',', parts) == 0
    decreases |parts|
  {
    if parts != [] {
      NoCommaSumsToZero(parts[1..]);
    }
  }

  /** Every field error appears in a validation response's message. */
  lemma ValidationMessageListsEveryError(errors: seq<FieldError>, exceptionMessage: string, now: Timestamp)
    ensures forall i | 0 <= i < |errors| :: Contains(HandleValidation(errors, exceptionMessage, now).body.message, Render(errors[i]))
  {
    JoinContainsParts(RenderAll(errors), ", ");
  }

  /** When no field name or default message holds a comma, the commas of a
      validation response's message number one less than the field errors:
      one per separator. */
  lemma ValidationMessageCommas(errors: seq<FieldError>, exceptionMessage: string, now: Timestamp)
    requires |errors| >= 1
    requires forall i | 0 <= i < |errors| :: Count(',', Render(errors[i])) == 0
    ensures Count(',', HandleValidation(errors, exceptionMessage, now).body.message) == |errors| - 1
  {
    var parts := RenderAll(errors);
    NoCommaSumsToZero(parts);
    JoinCount(',', parts, ", ");
    assert Count(',', ", ") == 1;
  }

  /** A single field error is the whole message, with no separator. */
  lemma SingleErrorMessage(e: FieldError, exceptionMessage: string, now: Timestamp)
    ensures HandleValidation([e], exceptionMessage, now).body.message == Render(e)
  {
  }

  /** The 404 body this handler builds for the user and movie services'
      NotFoundException names the id it was raised for: two bodies from one
      service agree exactly when the ids do. (The genre and country services
      raise another NotFoundException, which this handler does not catch.) */
  lemma NotFoundBodyDeterminesId(a: int, b: int, now: Timestamp)
    ensures HandleNotFound(UserService.NotFoundMessage(a), now) == HandleNotFound(UserService.NotFoundMessage(b), now) <==> a == b
    ensures HandleNotFound(MovieService.NotFoundMessage(a), now) == HandleNotFound(MovieService.NotFoundMessage(b), now) <==> a == b
  {
    MessageDeterminesId("User not found with id: ", a, b);
    MessageDeterminesId("Movie not found with id: ", a, b);
  }
}
