/** The client's `Error` enum and the conversions into it (src/error.rs). Payloads that come
    from other crates (awc, serde_json, url, http) are held by what this crate reads from them:
    their display text, or the `valid_up_to` index of a UTF-8 error. */
module Errors {
  import opened Wrappers

  /** An HTTP status code: the http crate accepts 100 through 999. */
  type StatusCode = c: int | 100 <= c <= 999 witness 200

  const RequestTimeout: StatusCode := 408

  /** Display text of awc's `SendRequestError::Timeout`. */
  const TimeoutText := "Timeout while waiting for response"

  /** awc's `SendRequestError`: its timeout variant, and every other variant by its text. */
  datatype SendFailure = Timeout | OtherSendFailure(text: string)

  function SendFailureText(e: SendFailure): string
  {
    match e
    case Timeout => TimeoutText
    case OtherSendFailure(text) => text
  }

  datatype PayloadFailure = PayloadFailure(text: string)
  datatype JsonPayloadFailure = JsonPayloadFailure(text: string)
  /** serde_json's error, by its display text. */
  datatype JsonFailure = JsonFailure(text: string)
  /** The model crate's `ErrorMessage` body of an error response. */
  datatype ErrorMessage = ErrorMessage(message: Option<string>)

  datatype Error =
    | SendRequestError(msg: string, url: string)
    | TimeoutError(msg: string, url: string)
    | PayloadError(payload: PayloadFailure)
    | JsonPayloadError(jsonPayload: JsonPayloadFailure)
    | JsonError(json: JsonFailure)
    | HttpStatusCode(code: StatusCode, url: string, msg: string)
    | SerdeJsonError(serde: JsonFailure)
    | InvalidHeaderName
    | InvalidHeaderValue
    | FromUtf8Error(utf8ValidUpTo: nat)
    | Utf8Error(validUpTo: nat)
    | UrlParseError(parse: string)
    | ApiErrorMessage(apiMessage: ErrorMessage)
    | InternalError(internal: string)
    | EventStreamError(stream: string)
  {
    predicate IsTimeout() { TimeoutError? }
  }

  /** `From<(SendRequestError, String)>`: the failure's text becomes `msg`; only a timeout turns
      into `TimeoutError`. */
  function FromSendFailureAt(e: SendFailure, url: string): (r: Error)
    ensures r.IsTimeout() <==> e == Timeout
    ensures r.SendRequestError? <==> e != Timeout
    ensures r.msg == SendFailureText(e) && r.url == url
  {
    var msg := SendFailureText(e);
    match e
    case Timeout => TimeoutError(msg, url)
    case _ => SendRequestError(msg, url)
  }

  /** `From<SendRequestError>`: the same conversion with an empty URL. */
  function FromSendFailure(e: SendFailure): (r: Error)
    ensures r.IsTimeout() <==> e == Timeout
    ensures r.SendRequestError? <==> e != Timeout
    ensures r.url == "" && r.msg == SendFailureText(e)
  {
    FromSendFailureAt(e, "")
  }

  function FromPayloadFailure(e: PayloadFailure): (r: Error)
    ensures r.PayloadError? && r.payload == e
  {
    PayloadError(e)
  }

  function FromJsonPayloadFailure(e: JsonPayloadFailure): (r: Error)
    ensures r.JsonPayloadError? && r.jsonPayload == e
  {
    JsonPayloadError(e)
  }

  /** The message taken from an error response body: its `message` or nothing when it has none,
      or a note on why the body did not parse (`parseError` is that error's display text). */
  function BodyMessage(body: Result<ErrorMessage, string>): (msg: string)
    ensures body.Success? && body.value.message.Some? ==> msg == body.value.message.value
    ensures body.Success? && body.value.message.None? ==> msg == ""
    ensures body.Failure? ==> msg == "error parsing error msg: " + body.error
  {
    match body
    case Success(m) => m.message.GetOr("")
    case Failure(parseError) => "error parsing error msg: " + parseError
  }

  /** `From<(StatusCode, String, Result<ErrorMessage, E>)>`: 408 is a timeout, every other
      status is kept with its code. */
  function FromStatus(code: StatusCode, url: string, body: Result<ErrorMessage, string>): (r: Error)
    ensures r.IsTimeout() <==> code == RequestTimeout
    ensures r.HttpStatusCode? <==> code != RequestTimeout
    ensures r.HttpStatusCode? ==> r.code == code
    ensures r.url == url && r.msg == BodyMessage(body)
  {
    var msg := BodyMessage(body);
    if code == RequestTimeout then TimeoutError(msg, url) else HttpStatusCode(code, url, msg)
  }
}
