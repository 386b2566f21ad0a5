/** Reading a response in src/web.rs: `filter_http_status`, `WebRequest::json` and
    `default_on_timeout`. Sending, the response body stream and serde's decoding of the target
    type are outside the model: a request's outcome arrives as a value, and decoding is a
    function parameter. */
module Responses {
  import opened Wrappers
  import opened Strings
  import Utf8
  import Json
  import opened Errors

  type byte = Utf8.byte

  const NoContent: StatusCode := 204

  /** `StatusCode::is_success`. */
  predicate IsSuccess(code: StatusCode) { 200 <= code <= 299 }

  /** The http crate's `canonical_reason`. */
  function CanonicalReason(code: StatusCode): Option<string>
  {
    match code
    case 100 => Some("Continue")
    case 101 => Some("Switching Protocols")
    case 102 => Some("Processing")
    case 200 => Some("OK")
    case 201 => Some("Created")
    case 202 => Some("Accepted")
    case 203 => Some("Non Authoritative Information")
    case 204 => Some("No Content")
    case 205 => Some("Reset Content")
    case 206 => Some("Partial Content")
    case 207 => Some("Multi-Status")
    case 208 => Some("Already Reported")
    case 226 => Some("IM Used")
    case 300 => Some("Multiple Choices")
    case 301 => Some("Moved Permanently")
    case 302 => Some("Found")
    case 303 => Some("See Other")
    case 304 => Some("Not Modified")
    case 305 => Some("Use Proxy")
    case 307 => Some("Temporary Redirect")
    case 308 => Some("Permanent Redirect")
    case 400 => Some("Bad Request")
    case 401 => Some("Unauthorized")
    case 402 => Some("Payment Required")
    case 403 => Some("Forbidden")
    case 404 => Some("Not Found")
    case 405 => Some("Method Not Allowed")
    case 406 => Some("Not Acceptable")
    case 407 => Some("Proxy Authentication Required")
    case 408 => Some("Request Timeout")
    case 409 => Some("Conflict")
    case 410 => Some("Gone")
    case 411 => Some("Length Required")
    case 412 => Some("Precondition Failed")
    case 413 => Some("Payload Too Large")
    case 414 => Some("URI Too Long")
    case 415 => Some("Unsupported Media Type")
    case 416 => Some("Range Not Satisfiable")
    case 417 => Some("Expectation Failed")
    case 418 => Some("I'm a teapot")
    case 421 => Some("Misdirected Request")
    case 422 => Some("Unprocessable Entity")
    case 423 => Some("Locked")
    case 424 => Some("Failed Dependency")
    case 426 => Some("Upgrade Required")
    case 428 => Some("Precondition Required")
    case 429 => Some("Too Many Requests")
    case 431 => Some("Request Header Fields Too Large")
    case 451 => Some("Unavailable For Legal Reasons")
    case 500 => Some("Internal Server Error")
    case 501 => Some("Not Implemented")
    case 502 => Some("Bad Gateway")
    case 503 => Some("Service Unavailable")
    case 504 => Some("Gateway Timeout")
    case 505 => Some("HTTP Version Not Supported")
    case 506 => Some("Variant Also Negotiates")
    case 507 => Some("Insufficient Storage")
    case 508 => Some("Loop Detected")
    case 510 => Some("Not Extended")
    case 511 => Some("Network Authentication Required")
    case _ => None
  }

  /** `Display` for `StatusCode`: the number, a space, and the reason phrase. */
  function StatusDisplay(code: StatusCode): string
  {
    Decimal(code) + " " + CanonicalReason(code).GetOr("<unknown status code>")
  }

  /** What the client sees of a response: its status, the raw bytes of its `Content-Length`
      header if it has one, and its body, or the error reading it. */
  datatype Response = Response(status: StatusCode, contentLength: Option<seq<byte>>,
                               body: Result<seq<byte>, PayloadFailure>)

  /** `HeaderValue::to_str`: the text of a value made only of visible ASCII and tabs. */
  function HeaderText(value: seq<byte>): (r: Option<string>)
    ensures r.Some? <==> forall i :: 0 <= i < |value| ==> 32 <= value[i] < 127 || value[i] == 9
    ensures r.Some? ==> |r.value| == |value| && forall i :: 0 <= i < |value| ==> r.value[i] as int == value[i]
  {
    if forall i :: 0 <= i < |value| ==> 32 <= value[i] < 127 || value[i] == 9 then
      Some(seq(|value|, i requires 0 <= i < |value| => value[i] as char))
    else None
  }

  /** The response's `Content-Length` as text, when present and readable. */
  function ContentLengthText(r: Response): Option<string>
  {
    match r.contentLength
    case Some(v) => HeaderText(v)
    case None => None
  }

  /** `json` skips the body of a 204 and of a response declaring a zero length. */
  predicate DeclaresEmptyBody(r: Response)
  {
    r.status == NoContent || ContentLengthText(r) == Some("0")
  }

  /** The zero-length test is exactly a `Content-Length` of the single byte `0`. */
  lemma ZeroContentLength(r: Response)
    ensures ContentLengthText(r) == Some("0") <==> r.contentLength == Some([48])
  {
    if r.contentLength == Some([48]) {
      var t := HeaderText([48]);
      assert t.Some? && |t.value| == 1 && t.value[0] == '0';
      assert t.value == "0";
    }
    if ContentLengthText(r) == Some("0") {
      var v := r.contentLength.value;
      assert |v| == 1 && v[0] == '0' as int;
      assert v == [48];
    }
  }

  /** `filter_http_status`: a successful response goes on; any other becomes an error built
      from its status, the URL and what `readErrorMessage` makes of its body. */
  function FilterHttpStatus(response: Response, url: string,
                            readErrorMessage: Response -> Result<ErrorMessage, string>): (r: Result<Response, Error>)
    ensures r.Success? <==> IsSuccess(response.status)
    ensures r.Success? ==> r.value == response
    ensures r.Failure? ==> r.error == FromStatus(response.status, url, readErrorMessage(response))
  {
    if IsSuccess(response.status) then Success(response)
    else Failure(FromStatus(response.status, url, readErrorMessage(response)))
  }

  /** The placeholder message for an empty body. */
  function EmptyBodyMessage(code: StatusCode): string
  {
    "[ EMPTY BODY (http: " + StatusDisplay(code) + ") ]"
  }

  /** The JSON text decoded in place of an empty body: the placeholder message in quotes. */
  function EmptyBodyText(code: StatusCode): string
  {
    "\"" + EmptyBodyMessage(code) + "\""
  }

  function FromJsonFailure<T>(r: Result<T, JsonFailure>): Result<T, Error>
  {
    match r
    case Success(v) => Success(v)
    case Failure(e) => Failure(JsonError(e))
  }

  /** `WebRequest::json`: the request's outcome `sent`, then the status filter, then the empty
      body shortcut, then reading the body, UTF-8 decoding and `decode`, each failure becoming
      its own error. */
  function ReadJson<T>(sent: Result<Response, SendFailure>, url: string,
                       readErrorMessage: Response -> Result<ErrorMessage, string>,
                       decode: string -> Result<T, JsonFailure>): (r: Result<T, Error>)
    ensures sent.Failure? ==> r == Failure(FromSendFailureAt(sent.error, url))
    ensures sent.Success? && IsSuccess(sent.value.status) && !DeclaresEmptyBody(sent.value)
              && sent.value.body.Failure?
            ==> r == Failure(PayloadError(sent.value.body.error))
    ensures r.Success? ==> sent.Success? && IsSuccess(sent.value.status)
    ensures r.Success? ==>
              (DeclaresEmptyBody(sent.value) && decode(EmptyBodyText(sent.value.status)) == Success(r.value))
              || (!DeclaresEmptyBody(sent.value) && sent.value.body.Success?
                  && Utf8.Decode(sent.value.body.value).Success?
                  && decode(Utf8.Decode(sent.value.body.value).value) == Success(r.value))
  {
    match sent
    case Failure(e) => Failure(FromSendFailureAt(e, url))
    case Success(received) =>
      match FilterHttpStatus(received, url, readErrorMessage)
      case Failure(e) => Failure(e)
      case Success(response) =>
        if DeclaresEmptyBody(response) then FromJsonFailure(decode(EmptyBodyText(response.status)))
        else
          match response.body
          case Failure(p) => Failure(PayloadError(p))
          case Success(raw) =>
            match Utf8.Decode(raw)
            case Failure(validUpTo) => Failure(Utf8Error(validUpTo))
            case Success(text) => FromJsonFailure(decode(text))
  }

  /** A timeout, of the transport or reported by the server as 408, is the only way `json`
      ends in `TimeoutError`. */
  lemma ReadJsonTimeout<T>(sent: Result<Response, SendFailure>, url: string,
                           readErrorMessage: Response -> Result<ErrorMessage, string>,
                           decode: string -> Result<T, JsonFailure>)
    ensures var r := ReadJson(sent, url, readErrorMessage, decode);
            (r.Failure? && r.error.IsTimeout())
            <==> (sent == Failure(Timeout) || (sent.Success? && sent.value.status == RequestTimeout))
  {
  }

  /** An unsuccessful status is reported as such even when the response declares an empty
      body. */
  lemma ReadJsonStatusFirst<T>(received: Response, url: string,
                               readErrorMessage: Response -> Result<ErrorMessage, string>,
                               decode: string -> Result<T, JsonFailure>)
    requires !IsSuccess(received.status)
    ensures ReadJson(Success(received), url, readErrorMessage, decode)
         == Failure(FromStatus(received.status, url, readErrorMessage(received)))
  {
  }

  /** A successful response that declares an empty body is decoded from the placeholder
      text, whatever its body holds, even a body that could not be read. */
  lemma ReadJsonEmptyBody<T>(received: Response, other: Result<seq<byte>, PayloadFailure>, url: string,
                             readErrorMessage: Response -> Result<ErrorMessage, string>,
                             decode: string -> Result<T, JsonFailure>)
    requires IsSuccess(received.status) && DeclaresEmptyBody(received)
    ensures ReadJson(Success(received), url, readErrorMessage, decode)
         == ReadJson(Success(received.(body := other)), url, readErrorMessage, decode)
         == FromJsonFailure(decode(EmptyBodyText(received.status)))
  {
  }

  /** A successful response whose body is the UTF-8 encoding of `text` is `decode(text)`. */
  lemma ReadJsonBody<T>(received: Response, text: string, url: string,
                        readErrorMessage: Response -> Result<ErrorMessage, string>,
                        decode: string -> Result<T, JsonFailure>)
    requires IsSuccess(received.status) && !DeclaresEmptyBody(received)
    requires received.body == Success(Utf8.Encode(text))
    ensures ReadJson(Success(received), url, readErrorMessage, decode) == FromJsonFailure(decode(text))
  {
    Utf8.DecodeEncode(text);
  }

  /** A body that is not UTF-8 is reported with the length of its valid prefix. */
  lemma ReadJsonInvalidUtf8<T>(received: Response, url: string,
                               readErrorMessage: Response -> Result<ErrorMessage, string>,
                               decode: string -> Result<T, JsonFailure>)
    requires IsSuccess(received.status) && !DeclaresEmptyBody(received)
    requires received.body.Success? && Utf8.Decode(received.body.value).Failure?
    ensures var r := ReadJson(Success(received), url, readErrorMessage, decode);
            r.Failure? && r.error.Utf8Error? && r.error.validUpTo < |received.body.value|
            && Utf8.Decode(received.body.value[..r.error.validUpTo]).Success?
            && forall m :: r.error.validUpTo < m <= |received.body.value| ==>
                 Utf8.Decode(received.body.value[..m]).Failure?
  {
    Utf8.ValidUpTo(received.body.value);
  }

  lemma PlainReasonsShort()
    ensures Json.IsPlain("OK") && Json.IsPlain("Created") && Json.IsPlain("Accepted") && Json.IsPlain("No Content")
  {
    var s0 := "OK";
    assert forall i :: 0 <= i < |s0| ==> ' ' <= s0[i] <= 'z' && s0[i] != '"';
    var s1 := "Created";
    assert forall i :: 0 <= i < |s1| ==> ' ' <= s1[i] <= 'z' && s1[i] != '"';
    var s2 := "Accepted";
    assert forall i :: 0 <= i < |s2| ==> ' ' <= s2[i] <= 'z' && s2[i] != '"';
    var s3 := "No Content";
    assert forall i :: 0 <= i < |s3| ==> ' ' <= s3[i] <= 'z' && s3[i] != '"';
  }

  lemma PlainReasonsMiddle()
    ensures Json.IsPlain("Non Authoritative Information") && Json.IsPlain("Reset Content") && Json.IsPlain("Partial Content")
  {
    var s0 := "Non Authoritative Information";
    assert forall i :: 0 <= i < |s0| ==> ' ' <= s0[i] <= 'z' && s0[i] != '"';
    var s1 := "Reset Content";
    assert forall i :: 0 <= i < |s1| ==> ' ' <= s1[i] <= 'z' && s1[i] != '"';
    var s2 := "Partial Content";
    assert forall i :: 0 <= i < |s2| ==> ' ' <= s2[i] <= 'z' && s2[i] != '"';
  }

  lemma PlainReasonsLong()
    ensures Json.IsPlain("Multi-Status") && Json.IsPlain("Already Reported") && Json.IsPlain("IM Used") && Json.IsPlain("<unknown status code>")
  {
    var s0 := "Multi-Status";
    assert forall i :: 0 <= i < |s0| ==> ' ' <= s0[i] <= 'z' && s0[i] != '"';
    var s1 := "Already Reported";
    assert forall i :: 0 <= i < |s1| ==> ' ' <= s1[i] <= 'z' && s1[i] != '"';
    var s2 := "IM Used";
    assert forall i :: 0 <= i < |s2| ==> ' ' <= s2[i] <= 'z' && s2[i] != '"';
    var s3 := "<unknown status code>";
    assert forall i :: 0 <= i < |s3| ==> ' ' <= s3[i] <= 'z' && s3[i] != '"';
  }

  lemma SuccessReasonIsPlain(code: StatusCode)
    requires IsSuccess(code)
    ensures Json.IsPlain(CanonicalReason(code).GetOr("<unknown status code>"))
  {
    var reason := CanonicalReason(code).GetOr("<unknown status code>");
    assert reason in {"OK", "Created", "Accepted", "No Content", "Non Authoritative Information",
                      "Reset Content", "Partial Content", "Multi-Status", "Already Reported",
                      "IM Used", "<unknown status code>"};
    PlainReasonsShort();
    PlainReasonsMiddle();
    PlainReasonsLong();
  }

  lemma SuccessDisplayIsPlain(code: StatusCode)
    requires IsSuccess(code)
    ensures Json.IsPlain(StatusDisplay(code))
  {
    var d := Decimal(code);
    assert forall i :: 0 <= i < |d| ==> IsDigit(d[i]);
    assert Json.IsPlain(" ");
    Json.PlainConcat(d, " ");
    SuccessReasonIsPlain(code);
    Json.PlainConcat(d + " ", CanonicalReason(code).GetOr("<unknown status code>"));
  }

  lemma PlaceholderPartsArePlain()
    ensures Json.IsPlain("[ EMPTY BODY (http: ") && Json.IsPlain(") ]")
  {
    var prefix, suffix := "[ EMPTY BODY (http: ", ") ]";
    assert forall i :: 0 <= i < |prefix| ==> ' ' <= prefix[i] <= 'z' && prefix[i] != '"';
    assert forall i :: 0 <= i < |suffix| ==> ' ' <= suffix[i] <= ']' && suffix[i] != '"';
  }

  /** The placeholder of a successful response is one JSON string, so a target type that
      reads strings receives `[ EMPTY BODY (http: 204 No Content) ]` and the like. */
  lemma EmptyBodyIsJsonString(code: StatusCode)
    requires IsSuccess(code)
    ensures Json.ParseString(EmptyBodyText(code)) == Some(EmptyBodyMessage(code))
  {
    SuccessDisplayIsPlain(code);
    PlaceholderPartsArePlain();
    Json.PlainConcat("[ EMPTY BODY (http: ", StatusDisplay(code));
    Json.PlainConcat("[ EMPTY BODY (http: " + StatusDisplay(code), ") ]");
    Json.WritePlainString(EmptyBodyMessage(code));
    Json.ParseWrittenString(EmptyBodyMessage(code));
  }

  /** `default_on_timeout`: a timeout becomes the target's default value; any other error is
      passed on. */
  function DefaultOnTimeout<T>(err: Error, default: T): (r: Result<T, Error>)
    ensures r.Success? <==> err.IsTimeout()
    ensures r.Success? ==> r.value == default
    ensures r.Failure? ==> r.error == err
  {
    if err.TimeoutError? then Success(default) else Failure(err)
  }

  /** `json` followed by `default_on_timeout` on its error: the default exactly when the
      request timed out or the server answered 408. */
  lemma ReadJsonOrDefault<T>(sent: Result<Response, SendFailure>, url: string,
                             readErrorMessage: Response -> Result<ErrorMessage, string>,
                             decode: string -> Result<T, JsonFailure>, default: T)
    requires ReadJson(sent, url, readErrorMessage, decode).Failure?
    ensures DefaultOnTimeout(ReadJson(sent, url, readErrorMessage, decode).error, default) == Success(default)
            <==> (sent == Failure(Timeout) || (sent.Success? && sent.value.status == RequestTimeout))
  {
    ReadJsonTimeout(sent, url, readErrorMessage, decode);
  }
}
