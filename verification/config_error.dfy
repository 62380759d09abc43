/** ConfigError: the second, checking Error record. Its canonical
    constructor refuses a null or blank message and a null status with an
    IllegalArgumentException, fills a null timestamp with the current time,
    and always overwrites the code argument with the status's code. Its
    factories pass code 0 and the current time. */
module ConfigError {
  import opened Common
  import opened Text
  import Errors

  const BlankMessage := "Error message cannot be null or blank"
  const NullStatus := "HTTP status cannot be null"

  /** The canonical constructor. The message is checked before the status. */
  function New(code: int, message: Option<string>, status: Option<Errors.HttpStatus>, timestamp: Option<Timestamp>,
               details: Option<string>, now: Timestamp)
    : (r: Errors.Thrown<Errors.ErrorBody>)
    ensures r.Returned? <==> message.Some? && !IsBlank(message.value) && status.Some?
    ensures message.None? || IsBlank(message.value) ==>
      r == Errors.Threw(Errors.IllegalArgument("Error message cannot be null or blank"))
    ensures message.Some? && !IsBlank(message.value) && status.None? ==>
      r == Errors.Threw(Errors.IllegalArgument("HTTP status cannot be null"))
    ensures r.Returned? ==>
      && r.value.code == status.value.Value()
      && r.value.message == message.value
      && r.value.status == status.value
      && (timestamp.Some? ==> r.value.timestamp == timestamp.value)
      && (timestamp.None? ==> r.value.timestamp == now)
      && r.value.details == details
  {
    if message.None? || IsBlank(message.value) then Errors.Threw(Errors.IllegalArgument(BlankMessage))
    else if status.None? then Errors.Threw(Errors.IllegalArgument(NullStatus))
    else
      var stamped := if timestamp.Some? then timestamp.value else now;
      Errors.Returned(Errors.ErrorBody(status.value.Value(), message.value, status.value, stamped, details))
  }

  /** Error.of(message, status). */
  function Of(message: Option<string>, status: Option<Errors.HttpStatus>, now: Timestamp): (r: Errors.Thrown<Errors.ErrorBody>)
    ensures r.Returned? <==> message.Some? && !IsBlank(message.value) && status.Some?
    ensures r.Returned? ==> r.value.code == status.value.Value() && r.value.timestamp == now && r.value.details.None?
  {
    New(0, message, status, Some(now), None, now)
  }

  /** Error.of(message, status, details); a null details is accepted. */
  function OfDetailed(message: Option<string>, status: Option<Errors.HttpStatus>, details: Option<string>, now: Timestamp)
    : (r: Errors.Thrown<Errors.ErrorBody>)
    ensures r.Returned? <==> message.Some? && !IsBlank(message.value) && status.Some?
    ensures r.Returned? ==> r.value.code == status.value.Value() && r.value.timestamp == now && r.value.details == details
  {
    New(0, message, status, Some(now), details, now)
  }

  /** The code argument is never kept: constructors that differ only in it
      build the same record, and only the status decides the code. */
  lemma CodeArgumentIgnored(c1: int, c2: int, message: Option<string>, status: Option<Errors.HttpStatus>,
                            timestamp: Option<Timestamp>, details: Option<string>, now: Timestamp)
    ensures New(c1, message, status, timestamp, details, now) == New(c2, message, status, timestamp, details, now)
  {
  }

  /** A blank message is reported even when the status is null too. */
  lemma MessageCheckedFirst(message: string, timestamp: Option<Timestamp>, details: Option<string>, now: Timestamp)
    requires IsBlank(message)
    ensures New(0, Some(message), None, timestamp, details, now).exception.message == "Error message cannot be null or blank"
  {
  }

  /** Where the checking record accepts a message, it builds the very body
      the unchecked record's factories build; it refuses exactly the null
      and blank messages the unchecked one would accept or reject with a
      NullPointerException instead. */
  lemma AgreesWithUncheckedError(message: Option<string>, status: Option<Errors.HttpStatus>, details: Option<string>, now: Timestamp)
    ensures Of(message, status, now).Returned? ==> Of(message, status, now) == Errors.Of(message, status, now)
    ensures OfDetailed(message, status, details, now).Returned? && details.Some? ==>
      OfDetailed(message, status, details, now) == Errors.OfDetailed(message, status, details, now)
    ensures message.Some? && IsBlank(message.value) && status.Some? ==>
      Of(message, status, now).Threw? && Errors.Of(message, status, now).Returned?
  {
  }
}
