/** How failures become HTTP responses: a service error answers with its own
    status, its code as a decimal string and its message; a bean-validation
    failure is mapped through the offending field; an unreadable body is a
    plain 400. */
module ExceptionHandler {
  import opened Wrappers
  import opened Text
  import opened ErrorCodes
  import opened ValidationFields

  /** The response envelope `{"errorCode": …, "msg": …, "data": null}`. */
  datatype RsData = RsData(errorCode: string, msg: string)

  datatype Response = Response(status: HttpStatus, body: RsData)

  /** The three exceptions the handler catches; a validation failure carries
      the name of its first field error, if it has one. */
  datatype Failure =
    | ServiceFailure(code: ErrorCode)
    | ArgumentNotValid(firstFieldError: Option<string>)
    | MessageNotReadable

  const BAD_REQUEST_MSG: string := "잘못된 요청입니다."

  /** `handleServiceException`. */
  function HandleServiceException(e: ErrorCode): (r: Response)
    ensures r.status == Status(e) && r.body.msg == Message(e)
    ensures ParseLong(r.body.errorCode) == Some(Code(e) as int)
  {
    LongDecimalRoundTrip(Code(e));
    Response(Status(e), RsData(LongToDecimal(Code(e)), Message(e)))
  }

  /** The error code a failing field stands for. */
  function FieldErrorCode(f: ValidationField): ErrorCode {
    match f
    case LatitudeField => INVALID_PIN_LATITUDE
    case LongitudeField => INVALID_PIN_LONGITUDE
    case ContentField => INVALID_PIN_CONTENT
    case UnknownField(_) => INVALID_VALUE
  }

  /** `handlePinValidationException`. */
  function HandleValidation(firstFieldError: Option<string>): (r: Response)
    ensures r.status == BadRequest
    ensures firstFieldError.None? ==> r.body == RsData("400", BAD_REQUEST_MSG)
    ensures firstFieldError.Some? ==>
      r == HandleServiceException(FieldErrorCode(From(firstFieldError.value)))
  {
    match firstFieldError
    case None => Response(BadRequest, RsData("400", BAD_REQUEST_MSG))
    case Some(name) => HandleServiceException(FieldErrorCode(From(name)))
  }

  function Handle(failure: Failure): (r: Response)
    ensures failure.ServiceFailure? ==> r.status == Status(failure.code)
    ensures !failure.ServiceFailure? ==> r.status == BadRequest
  {
    match failure
    case ServiceFailure(e) => HandleServiceException(e)
    case ArgumentNotValid(first) => HandleValidation(first)
    case MessageNotReadable => Response(BadRequest, RsData("400", BAD_REQUEST_MSG))
  }

  /** Which code a pin request's validation failure reports, by field: the
      three known fields their own codes, any other field the generic one. */
  lemma ValidationFieldCodes(f: ValidationField)
    requires f.UnknownField? ==> f.fieldName !in {"latitude", "longitude", "content"}
    ensures ParseLong(HandleValidation(Some(f.Name())).body.errorCode) ==
      Some(match f
           case LatitudeField => 1006
           case LongitudeField => 1007
           case ContentField => 1005
           case UnknownField(_) => 400)
  {
    FromNameRoundTrip(f);
    var r := HandleServiceException(FieldErrorCode(f));
    assert HandleValidation(Some(f.Name())) == r;
    match f
    case LatitudeField => assert ParseLong(r.body.errorCode) == Some(1006);
    case LongitudeField => assert ParseLong(r.body.errorCode) == Some(1007);
    case ContentField => assert ParseLong(r.body.errorCode) == Some(1005);
    case UnknownField(_) => assert ParseLong(r.body.errorCode) == Some(400);
  }

  /** Any other field name reports the generic invalid-value error. */
  lemma UnknownFieldCode(name: string)
    requires name !in {"latitude", "longitude", "content"}
    ensures var r := HandleValidation(Some(name));
      ParseLong(r.body.errorCode) == Some(400) && r.body.msg == Message(INVALID_VALUE)
  {
    assert From(name).UnknownField?;
  }
}
