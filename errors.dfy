/** The application's error taxonomy and its HTTP rendering
    (backend/src/infra/errors.rs). */
module Errors {
  import opened Wrappers
  import opened Observability

  /** An HTTP status code; the `http` crate admits the three-digit range. */
  type StatusCode = s: int | 100 <= s <= 999 witness 500

  const BadRequest: StatusCode := 400
  const Unauthorized: StatusCode := 401
  const NotFound: StatusCode := 404
  const UnprocessableEntity: StatusCode := 422
  const InternalServerError: StatusCode := 500

  /** `StatusCode::is_server_error`: the 5xx class. */
  predicate IsServerError(s: StatusCode) {
    500 <= s <= 599
  }

  /** `AppErrorData`: status, message and optional tags. Its constructor is `AppErrorData::new`. */
  datatype AppErrorData = AppErrorData(status: StatusCode, message: string, tags: Option<Tags>)

  /** What an axum JSON extractor rejection exposes: its own status and body text. */
  datatype JsonRejection = JsonRejection(status: StatusCode, bodyText: string)

  /** `AppError`. The two reqwest variants carry the rendered cause of the client error.
      `AppErrorData::to_business_error` is the `Business` constructor. */
  datatype AppError =
    | Reqwest(cause: string)
    | ReqwestMiddleware(cause: string)
    | Business(data: AppErrorData)
    | AxumJsonRejection(rejection: JsonRejection)
    | AxumJsonDataError(rejection: JsonRejection)

  /** `Result<T, AppError>`, usable with `:-` as Rust's `?`. */
  datatype Result<+T> = Ok(value: T) | Err(error: AppError) {
    predicate IsFailure() {
      Err?
    }

    function PropagateFailure<U>(): Result<U>
      requires Err?
    {
      Err(error)
    }

    function Extract(): T
      requires Ok?
    {
      value
    }
  }

  /** A business error with the given status and message and no tags. */
  function Fail(status: StatusCode, message: string): (e: AppError)
    ensures e.Business? && e.data.status == status && e.data.message == message
    ensures e.data.tags.None?
  {
    Business(AppErrorData(status, message, None))
  }

  /** `AppErrorData::get_tags`: the stored tags, or the default ones. */
  function GetTags(data: AppErrorData): (t: Tags)
    ensures data.tags.Some? ==> t == data.tags.value
    ensures data.tags.None? ==> t == DefaultTags() && t.userId.None?
  {
    if data.tags.Some? then data.tags.value else DefaultTags()
  }

  /** `to_app_error_data`: business errors are kept as they are, reqwest errors become
      500 with a fixed prefix, extractor rejections keep their own status and text. */
  function ToAppErrorData(e: AppError): (d: AppErrorData)
    ensures e.Business? ==> d == e.data
    ensures (e.Reqwest? || e.ReqwestMiddleware?) ==>
              d.status == InternalServerError && d.message == "Reqwest client error :: " + e.cause
    ensures (e.AxumJsonRejection? || e.AxumJsonDataError?) ==>
              d.status == e.rejection.status && d.message == e.rejection.bodyText
    ensures !e.Business? ==> d.tags.None?
  {
    match e
    case Business(data) => data
    case Reqwest(cause) => AppErrorData(InternalServerError, "Reqwest client error :: " + cause, None)
    case ReqwestMiddleware(cause) => AppErrorData(InternalServerError, "Reqwest client error :: " + cause, None)
    case AxumJsonRejection(rejection) => AppErrorData(rejection.status, rejection.bodyText, None)
    case AxumJsonDataError(rejection) => AppErrorData(rejection.status, rejection.bodyText, None)
  }

  /** Wrapping data with `to_business_error` and unwrapping it again gives it back. */
  lemma BusinessRoundTrip(data: AppErrorData)
    ensures ToAppErrorData(Business(data)) == data
    ensures IntoResponse(Business(data)).status == data.status
  {
  }

  /** The library error types that implement `ToBusinessError`. */
  datatype ErrorSource =
    | FmtError | SerdeJson | ReqwestMiddlewareError | InvalidHeaderValue | Sqlx | Rsa
    | AesGcm | FromUtf8 | RsaPkcs1 | FromHex | Spki | Base64Decode | Bcrypt | JsonWebToken

  /** A library error: which library, and its rendered cause. */
  datatype LibraryError = LibraryError(source: ErrorSource, cause: string)

  /** The fixed message prefix of each `ToBusinessError` impl. */
  function Prefix(source: ErrorSource): string {
    match source
    case FmtError => "General Error"
    case SerdeJson => "Serde json error"
    case ReqwestMiddlewareError => "Error when call external service"
    case InvalidHeaderValue => "Error when call external service"
    case Sqlx => "SQL Error"
    case Rsa => "RSA Error"
    case AesGcm => "AES Error"
    case FromUtf8 => "UTF8 Error"
    case RsaPkcs1 => "RSA PKCS1 Error"
    case FromHex => "Hex Error"
    case Spki => "SPKI Error"
    case Base64Decode => "DecodeError error"
    case Bcrypt => "BcryptError error"
    case JsonWebToken => "JWT Error"
  }

  /** `ToBusinessError::to_business_error`: every library error becomes a 500 whose message is
      `"<prefix>: <operation> :: <cause>"`; the caller's tags pass through. */
  function ToBusinessError(err: LibraryError, operation: string, tags: Option<Tags>): (e: AppError)
    ensures e.Business? && e.data.status == InternalServerError && e.data.tags == tags
    ensures e.data.message == Prefix(err.source) + ": " + operation + " :: " + err.cause
  {
    Business(AppErrorData(InternalServerError, Prefix(err.source) + ": " + operation + " :: " + err.cause, tags))
  }

  /** The message of a library error determines its cause: two errors from the same
      library under the same operation with equal messages have equal causes. */
  lemma {:induction false} LibraryMessageDeterminesCause(e1: LibraryError, e2: LibraryError, operation: string)
    requires e1.source == e2.source
    requires ToBusinessError(e1, operation, None).data.message == ToBusinessError(e2, operation, None).data.message
    ensures e1.cause == e2.cause
  {
    var head := Prefix(e1.source) + ": " + operation + " :: ";
    var m1 := ToBusinessError(e1, operation, None).data.message;
    var m2 := ToBusinessError(e2, operation, None).data.message;
    assert m1 == head + e1.cause;
    assert m2 == head + e2.cause;
    assert e1.cause == m1[|head|..];
    assert e2.cause == m2[|head|..];
  }

  /** The log severity chosen by `into_response`. */
  datatype LogLevel = Error | Info

  /** The JSON body `{status, message}`. */
  datatype ErrorBody = ErrorBody(status: int, message: string)

  /** What `into_response` produces: the HTTP status, the body, the tags placed in the
      response extensions, and the log line it writes (level, user id, message). */
  datatype ErrorResponse = ErrorResponse(
    status: StatusCode,
    body: ErrorBody,
    extensionTags: Tags,
    logLevel: LogLevel,
    logUserId: Option<string>,
    logMessage: string)

  /** `IntoResponse for AppError`. */
  function IntoResponse(e: AppError): (r: ErrorResponse)
    ensures r.status == ToAppErrorData(e).status
    ensures r.body == ErrorBody(ToAppErrorData(e).status, ToAppErrorData(e).message)
    ensures r.logLevel == Error <==> IsServerError(ToAppErrorData(e).status)
    ensures r.logLevel == Info <==> !IsServerError(ToAppErrorData(e).status)
    ensures r.extensionTags == GetTags(ToAppErrorData(e))
    ensures r.logUserId == r.extensionTags.userId && r.logMessage == r.body.message
  {
    var data := ToAppErrorData(e);
    var tags := GetTags(data);
    var level := if IsServerError(data.status) then Error else Info;
    ErrorResponse(data.status, ErrorBody(data.status, data.message), tags, level, tags.userId, data.message)
  }

  /** Every library error is answered with 500, keeps its message in the body and is
      logged at error level with the caller's user id. */
  lemma LibraryErrorResponse(err: LibraryError, operation: string, tags: Option<Tags>)
    ensures var r := IntoResponse(ToBusinessError(err, operation, tags));
      && r.status == InternalServerError
      && r.logLevel == Error
      && r.body.message == Prefix(err.source) + ": " + operation + " :: " + err.cause
      && (tags.Some? ==> r.logUserId == tags.value.userId)
      && (tags.None? ==> r.logUserId.None?)
  {
  }
}
