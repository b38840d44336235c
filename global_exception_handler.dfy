/** The controller advice that turns every failure into an error response. */
module GlobalExceptionHandler {
  import opened Wrappers
  import opened Errors
  import opened Text
  import opened Servlet

  datatype ErrorResponse = ErrorResponse(status: int, errorCode: string, message: string)

  /** The HTTP status of the response and its body. */
  datatype ResponseEntity = ResponseEntity(httpStatus: int, body: ErrorResponse)

  const TimeoutMessage := "요청 처리 시간이 초과되었습니다."
  const ErrorMessageAttribute := "errorMessage"

  /** `buildResponse`: the status in the body is the response status, the code
      is the enum name, and a missing message falls back to the code's default. */
  function BuildResponse(status: int, code: ErrorCode, message: Option<string>): (r: ResponseEntity)
    ensures r.httpStatus == status && r.body.status == status && r.body.errorCode == Name(code)
    ensures message.Some? ==> r.body.message == message.value
    ensures message.None? ==> r.body.message == DefaultMessage(code)
  {
    ResponseEntity(status, ErrorResponse(status, Name(code), message.GetOr(DefaultMessage(code))))
  }

  /** One field error as `field: message`; a missing message prints as `null`. */
  function FieldErrorText(e: FieldError): string {
    e.field + ": " + e.defaultMessage.GetOr("null")
  }

  function FieldErrorTexts(errors: seq<FieldError>): (r: seq<string>)
    ensures |r| == |errors|
    ensures forall i :: 0 <= i < |errors| ==> r[i] == FieldErrorText(errors[i])
  {
    if errors == [] then [] else [FieldErrorText(errors[0])] + FieldErrorTexts(errors[1..])
  }

  /** The validation message: every field error, in order, separated by `, `. */
  function ValidationMessage(errors: seq<FieldError>): string {
    Join(FieldErrorTexts(errors), ", ")
  }

  /** Adding a field error appends `, field: message` to the message. */
  lemma ValidationMessageSnoc(errors: seq<FieldError>, e: FieldError)
    requires |errors| > 0
    ensures ValidationMessage(errors + [e]) == ValidationMessage(errors) + ", " + FieldErrorText(e)
  {
    assert FieldErrorTexts(errors + [e]) == FieldErrorTexts(errors) + [FieldErrorText(e)];
    JoinSnoc(FieldErrorTexts(errors), FieldErrorText(e), ", ");
  }

  /** The response for each kind of failure, and the `errorMessage` request
      attribute, which only the catch-all handler sets. */
  function Handle(f: Failure): (r: (ResponseEntity, Option<string>))
    ensures r.0.body.status == r.0.httpStatus
    ensures r.1.Some? <==> f.Thrown?
    ensures f.Err? ==> (r.0.httpStatus == Status(f.code) && r.0.body.errorCode == Name(f.code)
                        && r.0.body.message == f.message)
    ensures f.Thrown? ==> (r.0.httpStatus == 500 && r.0.body.errorCode == Name(InternalServerError)
                           && r.0.body.message == f.detail.GetOr(DefaultMessage(InternalServerError))
                           && r.1.value == f.simpleName + ": " + f.detail.GetOr("No message"))
    ensures f.Timeout? ==> (r.0.httpStatus == 408 && r.0.body.errorCode == Name(RequestTimeout)
                            && r.0.body.message == TimeoutMessage)
    ensures f.ArgumentNotValid? ==> (r.0.httpStatus == 400 && r.0.body.errorCode == Name(ValidationFailed)
                                     && r.0.body.message == ValidationMessage(f.fieldErrors))
    ensures f.NotReadable? ==> (r.0.httpStatus == 400 && r.0.body.errorCode == Name(ValidationFailed)
                                && r.0.body.message == f.readMessage.GetOr(DefaultMessage(ValidationFailed)))
    ensures f.AuthorizationDenied? ==> (r.0.httpStatus == 403 && r.0.body.errorCode == Name(AccessDenied)
                                        && r.0.body.message == f.deniedMessage.GetOr(DefaultMessage(AccessDenied)))
  {
    match f
    case Err(code, message) => (BuildResponse(Status(code), code, Some(message)), None)
    case Timeout => (BuildResponse(408, RequestTimeout, Some(TimeoutMessage)), None)
    case ArgumentNotValid(fieldErrors) =>
      (ResponseEntity(400, ErrorResponse(400, Name(ValidationFailed), ValidationMessage(fieldErrors))), None)
    case NotReadable(message) =>
      (ResponseEntity(400, ErrorResponse(400, Name(ValidationFailed), message.GetOr(DefaultMessage(ValidationFailed)))), None)
    case AuthorizationDenied(message) => (BuildResponse(403, AccessDenied, message), None)
    case Thrown(simpleName, message) =>
      (BuildResponse(500, InternalServerError, message), Some(simpleName + ": " + message.GetOr("No message")))
  }

  /** Every response is a client or server error, and it is a server error only
      for an exception that reaches the catch-all handler or an explicit
      INTERNAL_SERVER_ERROR. */
  lemma StatusClassification(f: Failure)
    ensures 400 <= Handle(f).0.httpStatus < 600
    ensures Handle(f).0.httpStatus >= 500 <==> (f.Thrown? || (f.Err? && f.code == InternalServerError))
  {
  }

  /** Handling a failure: the response, and for an exception that reaches the
      catch-all handler the `errorMessage` attribute the request log later
      reads. */
  method HandleException(request: HttpRequest, f: Failure) returns (response: ResponseEntity)
    modifies request
    ensures response == Handle(f).0
    ensures request.attributes == if f.Thrown? then old(request.attributes)[ErrorMessageAttribute := StringValue(Handle(f).1.value)]
                                  else old(request.attributes)
  {
    var handled := Handle(f);
    if f.Thrown? {
      request.SetAttribute(ErrorMessageAttribute, StringValue(handled.1.value));
    }
    response := handled.0;
  }
}
