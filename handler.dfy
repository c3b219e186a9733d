/** The API exception handler: an ordered table from exception kind to HTTP
    status and a single {code, message} error item. */
module Handler {
  import Service

  /** The exceptions the handler tells apart, with what their messages are
      built from. Other stands for any other throwable, such as the
      InvalidArgumentException of the input record. */
  datatype Exception =
    | SalesmanNotFound(uuid: string)
    | SalesmanAlreadyExists(field: string, value: string)
    | InvalidInputData(field: string, value: string, expectedType: string)
    | InputDataOutOfRange(field: string, value: string, range: string)
    | ValidationFailed
    | NotFoundHttp
    | Other(message: string)
  {
    /** getMessage() of the application's own exceptions. */
    function Message(): string {
      match this
      case SalesmanNotFound(uuid) => "Salesman \"" + uuid + "\" not found."
      case SalesmanAlreadyExists(field, value) => "Salesman with such " + field + " " + value + " is already registered."
      case InvalidInputData(field, value, t) =>
        "Bad format of input data. Field " + field + " " + value + " must be of type " + t + "."
      case InputDataOutOfRange(field, value, range) =>
        "Input data out of range. Field " + field + " of value " + value
          + " is out of range. Acceptable range for this field is " + range + "."
      case ValidationFailed => "The given data was invalid."
      case NotFoundHttp => ""
      case Other(message) => message
    }
  }

  /** One element of the `errors` list. */
  datatype ErrorItem = ErrorItem(code: string, message: string)

  /** A JSON error response. */
  datatype ErrorResponse = ErrorResponse(status: nat, errors: seq<ErrorItem>)

  function Single(status: nat, code: string, message: string): ErrorResponse {
    ErrorResponse(status, [ErrorItem(code, message)])
  }

  /** handleApiException: the first matching test decides. */
  function HandleApiException(e: Exception): ErrorResponse {
    match e
    case SalesmanNotFound(_) => Single(404, "PERSON_NOT_FOUND", e.Message())
    case SalesmanAlreadyExists(_, _) => Single(409, "PERSON_ALREADY_EXISTS", e.Message())
    case InvalidInputData(_, _, _) => Single(400, "INPUT_DATA_BAD_FORMAT", e.Message())
    case InputDataOutOfRange(_, _, _) => Single(416, "INPUT_DATA_OUT_OF_RANGE", e.Message())
    case ValidationFailed => Single(400, "INPUT_DATA_BAD_FORMAT", "Bad format of input data.")
    case NotFoundHttp => Single(400, "BAD_REQUEST", "Query execution failed.")
    case Other(_) => Single(500, "INTERNAL_SERVER_ERROR", "An internal server error occurred.")
  }

  /** render: the JSON table applies only when the request expects JSON;
      otherwise the framework's own rendering is used. */
  datatype Rendered = Json(response: ErrorResponse) | FrameworkDefault

  function Render(expectsJson: bool, e: Exception): Rendered {
    if expectsJson then Json(HandleApiException(e)) else FrameworkDefault
  }

  /** The JSON table is used exactly when the request expects JSON. */
  lemma RenderJsonOnly(expectsJson: bool, e: Exception)
    ensures Render(expectsJson, e).Json? <==> expectsJson
    ensures expectsJson ==> Render(expectsJson, e).response == HandleApiException(e)
  {
  }

  /** The status each error code is sent with. */
  function StatusOfCode(code: string): nat {
    if code == "PERSON_NOT_FOUND" then 404
    else if code == "PERSON_ALREADY_EXISTS" then 409
    else if code == "INPUT_DATA_BAD_FORMAT" then 400
    else if code == "INPUT_DATA_OUT_OF_RANGE" then 416
    else if code == "BAD_REQUEST" then 400
    else 500
  }

  /** Every response carries exactly one error item, its status is the one
      its code is always sent with, and only unexpected exceptions give a
      server error. */
  lemma ResponseShape(e: Exception)
    ensures |HandleApiException(e).errors| == 1
    ensures HandleApiException(e).status == StatusOfCode(HandleApiException(e).errors[0].code)
    ensures HandleApiException(e).status in {400, 404, 409, 416, 500}
    ensures HandleApiException(e).status == 500 <==> e.Other?
  {
  }

  /** Two exceptions answered with the same code get the same status. */
  lemma SameCodeSameStatus(a: Exception, b: Exception)
    ensures HandleApiException(a).errors[0].code == HandleApiException(b).errors[0].code ==>
      HandleApiException(a).status == HandleApiException(b).status
  {
    ResponseShape(a);
    ResponseShape(b);
  }

  /** The application's own exceptions pass their message through; the
      framework's and unexpected ones get a fixed message. */
  lemma MessagesPassedThrough(e: Exception)
    ensures (e.SalesmanNotFound? || e.SalesmanAlreadyExists? || e.InvalidInputData? || e.InputDataOutOfRange?) ==>
      HandleApiException(e).errors[0].message == e.Message()
    ensures e.ValidationFailed? ==> HandleApiException(e).errors[0].message == "Bad format of input data."
    ensures e.Other? ==> HandleApiException(e).errors[0].message == "An internal server error occurred."
  {
  }

  /** The service's errors as the exceptions it throws. */
  function FromServiceError(e: Service.ServiceError): (x: Exception)
    ensures x.Message() == e.Message()
  {
    match e
    case NotFound(id) => SalesmanNotFound(id)
    case AlreadyExists(field, value) => SalesmanAlreadyExists(field, value)
  }

  /** A missing salesman is answered 404 PERSON_NOT_FOUND and a duplicate
      409 PERSON_ALREADY_EXISTS, each with the service's message. */
  lemma ServiceErrorResponses(e: Service.ServiceError)
    ensures var r := HandleApiException(FromServiceError(e));
      && r.errors == [ErrorItem(if e.NotFound? then "PERSON_NOT_FOUND" else "PERSON_ALREADY_EXISTS", e.Message())]
      && r.status == (if e.NotFound? then 404 else 409)
  {
  }
}
