# ya-client core, modelled in Dafny

This project models the core of `ya-client`, the Rust client library of the Yagna REST API. It
covers four pieces:

- **The web layer** (`src/web.rs`).
  - How a client's base URL is chosen and rebased per service.
  - How endpoint URLs are built (`url_format!` with its `QueryParamsBuilder`).
  - How a response is turned into a result (`filter_http_status`, `WebRequest::json`,
    `default_on_timeout`).
  - How `WebClientBuilder` gathers settings and builds the awc client configuration.
- **The error type** (`src/error.rs`): the `Error` enum and its `From` conversions.
- **The invoice event** (`model/src/payment/invoice_event.rs`): the short-tag codec
  (`RECEIVED`, …) and the serde JSON codec of `InvoiceEventType`, and the JSON object of
  `InvoiceEvent`.
- **The invoice status** (`model/src/payment/invoice_status.rs`): its ordering, `to_string`,
  and the two `String` conversions.

Code that builds values becomes datatypes, functions and lemmas. Code that changes state in
place becomes classes and methods with loops:

- `QueryParamsBuilder` and `WebClientBuilder` are classes.
- `put`, `header` and the builder setters are methods that modify the object.
- `build`'s loop over the header map and the body of `url_format!` are `while` loops proved
  against specification functions.

Some library behaviour the core depends on is modelled directly, because the core's promises
depend on it:

- the url crate's `form_urlencoded` serializer, checked against a parser as its inverse;
- `std::str::from_utf8`, checked against a UTF-8 encoder;
- serde_json's compact writer and its string-literal reader;
- `Url::join` for plain relative paths;
- the http crate's checks on header names and values, and its status reasons.

Everything outside the process enters as a parameter or a value:

- the environment variables `YAGNA_API_URL` and each service's variable;
- URL parsing;
- the outcome of sending a request;
- serde decoding of the caller's target type;
- the reading of an error body.

Modules:

| module | what it models |
|---|---|
| `Wrappers` | `Option` and `Result` |
| `Strings` | splitting and joining on a separator, and decimal numerals |
| `Utf8` | `std::str::from_utf8` |
| `FormUrlencoded` | the url crate's `application/x-www-form-urlencoded` serializer |
| `QueryParams` | `QueryParamsBuilder` |
| `UrlFormat` | `format!` on a path template, and `url_format!` |
| `Json` | JSON values, serde_json's writer and its string-literal reader |
| `InvoiceStatus` | `invoice_status.rs` |
| `InvoiceEvent` | `invoice_event.rs` |
| `Errors` | `error.rs` |
| `Urls` | `Url` and `Url::join` |
| `Responses` | `filter_http_status`, `json` and `default_on_timeout` |
| `Client` | `rest_api_url`, `rebase_service_url`, `interface_at`, `url`/`request`, and `WebClientBuilder` |

## Model

| member | source | states |
|---|---|---|
| QueryParams.QueryParamsBuilder.constructor | src/web.rs:264-267 | `new` starts with an empty serializer: no pairs and an empty target. |
| QueryParams.QueryParamsBuilder.Put | src/web.rs:269-275 | `put` with a value appends exactly that pair; `put` with `None` leaves the builder unchanged. The target stays the form-urlencoded serialization of the pairs put so far. |
| QueryParams.QueryParamsBuilder.Build | src/web.rs:277-279 | `build` returns the serialization of the pairs put, in order, and that text parses back to exactly those pairs. |
| FormUrlencoded.ParseSerialize | src/web.rs:269-279 | The query text `append_pair`/`finish` produce is lossless: parsing it gives back the pairs in order, for any names and values. |
| FormUrlencoded.Encode | src/web.rs:271-272 | `byte_serialize` of a name or value's UTF-8 bytes. Its meaning is pinned by `DecodeEncode` (percent-decoding undoes it) and `EncodeShape`. |
| FormUrlencoded.Serialize | src/web.rs:269-279 | The text `append_pair` after `append_pair` leaves and `finish` returns: the encoded pairs as `name=value`, joined by `&`. `ParseSerialize` proves it parses back to the pairs. |
| FormUrlencoded.DecodeEncode | src/web.rs:271-272 | `byte_serialize` of a name or value is undone by percent-decoding (`+` for space, `%XX` in upper case). |
| FormUrlencoded.EncodeShape | src/web.rs:271-272 | An encoded component never contains `&` or `=`, and it is empty only when the input is empty. |
| FormUrlencoded.EncodeUnreserved | src/web.rs:271-272 | ASCII alphanumerics and `*-._` are written as they are. |
| FormUrlencoded.SerializeShortForms | src/web.rs:277-279 | The serialization is empty exactly when no pair was put. It is one character long exactly when the only pair has an empty name and an empty value. |
| FormUrlencoded.SerializeAppend | src/web.rs:269-273 | Appending a pair adds `&` only when the target is non-empty, then `name=value`. |
| UrlFormat.FormatNamed | src/web.rs:287 | `format!` of a template written with `{name}` placeholders, given distinct names, substitutes each argument's text at its placeholders and copies everything else. |
| UrlFormat.Format | src/web.rs:287 | `format!` on a path template: `None` where the compiler would reject the call (bad template, unknown argument with no implicit capture, duplicate or unused argument), else the substituted text. `FormatNamed`, `FormatPlain` and `ParseUnparse` state what it yields. |
| UrlFormat.FormatPlain | src/web.rs:302-305 | A template without braces formats to itself (`url_format!("foo") == "foo"`). |
| UrlFormat.ParseUnparse | src/web.rs:287 | The template parser reads back every well-formed sequence of literals, `{}`, `{n}` and `{name}` pieces. |
| UrlFormat.UrlFormat | src/web.rs:283-296 | The macro body builds the query from the `#[query]` arguments in order and appends `?query` only when the query is longer than one character. |
| UrlFormat.FormattedUrl | src/web.rs:283-296 | The value of the macro: it always starts with the formatted path, and anything after it begins with `?`. `QueryPlacement` says when the query is there and what it parses to. |
| UrlFormat.QueryPlacement | src/web.rs:288-294 | No `?` is appended when no query argument has a value, or when the only present pair serializes to `=`. Otherwise the URL is the formatted path, `?`, and a query that parses to the present pairs in order. |
| UrlFormat.QueryAppendedIffSomeValue | src/web.rs:288-294 | With identifier query names, as the macro has, the URL differs from the formatted path exactly when some query argument has a value (the `empty_query_url` and `mix_query_url` cases). |
| UrlFormat.PresentNames | src/web.rs:289 | Only `#[query]` arguments that hold a value contribute a pair, under their own name. |
| Utf8.DecodeEncode | src/web.rs:172 | `from_utf8` accepts the UTF-8 encoding of any text and yields that text. |
| Utf8.EncodeDecode | src/web.rs:172 | Whatever `from_utf8` accepts is the encoding of the text it yields. |
| Utf8.ValidUpTo | src/web.rs:172 | When `from_utf8` fails, `valid_up_to` is the length of the longest well-formed prefix: that prefix decodes, and every longer prefix fails. |
| Utf8.Decode | src/web.rs:172 | On failure, `valid_up_to` is an index inside the input. |
| Json.ParseWrittenString | model/src/payment/invoice_status.rs:17-31 | serde_json's reader reads back any string serde_json wrote. |
| Json.Write | model/src/payment/invoice_status.rs:29-31 | serde_json's compact writer: strings are quoted and escaped, arrays and objects written without spaces in member order. `ParseWrittenString` reads its strings back. |
| Json.ParseString | model/src/payment/invoice_status.rs:17 | `serde_json::from_str` into a `String`: optional whitespace, one string literal, optional whitespace, nothing else. `ParseWrittenString` and `ReadEscaped` prove it inverts `Write`. |
| Json.ReadEscaped | model/src/payment/invoice_status.rs:17 | The string reader undoes the writer's escaping and stops at the closing quote. |
| Json.EscapePlain | model/src/payment/invoice_status.rs:29-31 | Text without quotes, backslashes or control characters is written unescaped. |
| InvoiceStatus.ToString | model/src/payment/invoice_status.rs:27-34 | `to_string` (serde's JSON with the quotes trimmed) is the upper-case variant name. |
| InvoiceStatus.IntoString | model/src/payment/invoice_status.rs:21-25 | `From<InvoiceStatus> for String` is the upper-cased variant name. |
| InvoiceStatus.SerdeName | model/src/payment/invoice_status.rs:3-13 | The name serde writes and reads for each status. `SerdeNameIsUpper` proves it is the variant name in upper case, and `SerdeNameInverse` that it is the decoder's only input. |
| InvoiceStatus.FromString | model/src/payment/invoice_status.rs:15-19 | `From<String>` yields the status whose serde name is what the quoted text reads as JSON. Text that is not such a name panics in the source; here that is the precondition. |
| InvoiceStatus.FromToString | model/src/payment/invoice_status.rs:15-34 | Converting a status to text and back gives the same status. |
| InvoiceStatus.ToStringInjective | model/src/payment/invoice_status.rs:27-34 | Different statuses have different texts. |
| InvoiceStatus.SerdeNameIsUpper | model/src/payment/invoice_status.rs:3-4 | The serde name of each status is its variant name in upper case (`rename_all = "UPPERCASE"`). |
| InvoiceStatus.SerdeNameInverse | model/src/payment/invoice_status.rs:3-13 | The only names the decoder accepts are the serde names of the seven statuses. |
| InvoiceStatus.DeclarationOrder | model/src/payment/invoice_status.rs:3-13 | The derived `Ord` follows declaration order (Issued < Received < … < Cancelled) and is a strict total order. |
| InvoiceStatus.EscapedTextAccepted | model/src/payment/invoice_status.rs:15-19 | Because the text is read as a JSON string, an escaped spelling such as `\u0049SSUED` is accepted as `Issued`. |
| InvoiceStatus.LowerCaseRejected | model/src/payment/invoice_status.rs:15-19 | Matching is case-sensitive: `issued` is not a status text. |
| InvoiceEvent.ParseTag | model/src/payment/invoice_event.rs:13-27 | strum's `parse` accepts only the exact tags, and a parsed variant's tag is the input. |
| InvoiceEvent.ToTag | model/src/payment/invoice_event.rs:13-27 | strum's `to_string`: the tag given in each variant's `to_string` attribute. `TagRoundTrip` proves `ParseTag` inverts it. |
| InvoiceEvent.TagRoundTrip | model/src/payment/invoice_event.rs:13-27 | Parsing a variant's tag gives the variant back. The rejected variant comes back with the default rejection, since its tag carries none. |
| InvoiceEvent.TypeRoundTrip | model/src/payment/invoice_event.rs:13-27 | The serde codec of the event type loses nothing: decoding an encoded type gives it back. |
| InvoiceEvent.EncodeType | model/src/payment/invoice_event.rs:13-27 | serde's externally tagged encoding: a unit variant is its name as a string; the rejected variant is `{"InvoiceRejectedEvent":{"rejection":…}}`. `TypeRoundTrip` pairs it with `DecodeType`. |
| InvoiceEvent.DecodeType | model/src/payment/invoice_event.rs:13-27 | serde's decoder for the event type: a variant name string, a one-member object naming the variant, or the rejected variant's body as a map or a one-element sequence. `TypeRoundTrip`, `CodecsAreIndependent` and `UnitVariantAsObject` state what it accepts. |
| InvoiceEvent.CodecsAreIndependent | model/src/payment/invoice_event.rs:13-27 | A variant's short tag differs from its JSON name, and neither codec accepts the other's tag. |
| InvoiceEvent.EventRoundTrip | model/src/payment/invoice_event.rs:5-11 | Decoding an encoded event gives the same event. |
| InvoiceEvent.EncodeEvent | model/src/payment/invoice_event.rs:5-11 | The object serde writes for an event: `invoiceId`, `eventDate`, `eventType` in declaration order (camelCase). `SerializeEvent` gives its text and `EventRoundTrip` its inverse. |
| InvoiceEvent.DecodeEvent | model/src/payment/invoice_event.rs:5-11 | serde's decoder for an event: an object with each camelCase field exactly once, or a three-element sequence. `EventRoundTrip` and `EventFieldOrderFree` state what it accepts. |
| InvoiceEvent.EventFieldOrderFree | model/src/payment/invoice_event.rs:5-11 | The decoder reads the fields in any order. |
| InvoiceEvent.SerializeEvent | model/src/payment/invoice_event.rs:36-52 | An event is written as `{"invoiceId":…,"eventDate":…,"eventType":"<Variant>"}`, compact and in declaration order. |
| InvoiceEvent.SerializeRejectedEvent | model/src/payment/invoice_event.rs:76-95 | The rejected variant is written as `{"InvoiceRejectedEvent":{"rejection":<rejection>}}`. |
| InvoiceEvent.DeserializeAcceptedEvent | model/src/payment/invoice_event.rs:54-74 | The object of `test_deserialize` decodes to the accepted event with its id and date. |
| InvoiceEvent.UnitVariantAsObject | model/src/payment/invoice_event.rs:13-27 | A payload-less variant is also read from `{"<Variant>": null}`, and from no other value under its name. |
| Errors.FromSendFailureAt | src/error.rs:53-61 | A send failure becomes `TimeoutError` exactly when it is a timeout, and `SendRequestError` otherwise. Either way the failure's text is `msg` and the URL is kept. |
| Errors.FromSendFailure | src/error.rs:47-51 | A bare send failure converts as with an empty URL. |
| Errors.FromPayloadFailure | src/error.rs:63-67 | A payload failure is wrapped unchanged. |
| Errors.FromJsonPayloadFailure | src/error.rs:69-73 | A JSON payload failure is wrapped unchanged. |
| Errors.BodyMessage | src/error.rs:77-79 | The message is the body's `message`, or empty when it has none, or `error parsing error msg: ` followed by the parse error. |
| Errors.FromStatus | src/error.rs:75-86 | Status 408 becomes `TimeoutError`; every other status becomes `HttpStatusCode` with its code. The URL and the message from the body are kept either way. |
| Urls.Join | src/web.rs:42-47 | Joining a plain relative path keeps the origin and drops the query and fragment. |
| Urls.JoinPath | src/web.rs:66-71 | A base whose path ends in `/` is extended by the suffix; any other base loses its last segment, the text after its last `/`. This is why the suffix should have no leading slash and the base should end in `/`. |
| Urls.JoinJoin | src/web.rs:42-47 | Joining a service suffix that ends in `/` and then an endpoint suffix equals joining their concatenation. |
| Responses.HeaderText | src/web.rs:159-164 | `HeaderValue::to_str` succeeds exactly on visible ASCII and tabs, and keeps every byte. |
| Responses.ZeroContentLength | src/web.rs:159-164 | The empty-body test on `Content-Length` holds exactly when the header is the single byte `0`. |
| Responses.DeclaresEmptyBody | src/web.rs:159-164 | The empty-body shortcut: status 204, or a `Content-Length` whose text is `0`. `ZeroContentLength` pins the header test to the single byte `0`. |
| Responses.StatusDisplay | src/web.rs:166-169 | `StatusCode`'s `Display`: the code in decimal, a space, then the canonical reason or `<unknown status code>`. `SuccessDisplayIsPlain` proves it needs no escaping for 2xx codes. |
| Responses.FilterHttpStatus | src/web.rs:133-146 | A 2xx response passes unchanged. Any other status becomes the error built from the status, the URL and the error body. |
| Responses.ReadJson | src/web.rs:149-176 | `json`: a send failure becomes `FromSendFailureAt` with the request URL; a 2xx response without a declared empty body whose body cannot be read becomes `PayloadError`. A value is returned only for a sent request answered 2xx, and it is what `decode` made of the placeholder (when the response declares an empty body) or of the UTF-8 text of the body. The `ReadJson*` lemmas below state the other paths. |
| Responses.ReadJsonTimeout | src/web.rs:149-176 | `json` ends in `TimeoutError` exactly when sending timed out or the server answered 408. |
| Responses.ReadJsonStatusFirst | src/web.rs:149-164 | A non-2xx status is reported as such, even when the response declares an empty body. |
| Responses.ReadJsonEmptyBody | src/web.rs:159-169 | A 2xx response that is 204 or declares length `0` is decoded from the placeholder text, whatever its body holds. |
| Responses.ReadJsonBody | src/web.rs:171-175 | Otherwise, a body that is the UTF-8 encoding of a text yields that text decoded. |
| Responses.ReadJsonInvalidUtf8 | src/web.rs:171-172 | A body that is not UTF-8 gives `Utf8Error` whose `valid_up_to` is the length of its longest well-formed prefix: that prefix decodes and no longer prefix does. |
| Responses.EmptyBodyIsJsonString | src/web.rs:166-169 | For a 2xx status the placeholder is one JSON string, `[ EMPTY BODY (http: <code> <reason>) ]`. |
| Responses.DefaultOnTimeout | src/web.rs:181-189 | A timeout becomes `Ok(default)`; every other error is passed through unchanged. |
| Responses.ReadJsonOrDefault | src/web.rs:149-189 | After `json`, `default_on_timeout` gives the default exactly when the request timed out or the server answered 408. |
| Client.RestApiUrl | src/web.rs:15-23 | The URL comes from the environment variable `YAGNA_API_URL` when it is set, else from `http://127.0.0.1:7465`. A text that does not parse panics in the source; here that is the precondition. |
| Client.RebaseServiceUrl | src/web.rs:42-47 | The service's own environment variable overrides the base, and a parse error becomes `UrlParseError`. Without it, the suffix is joined to the base's directory on the same origin, and the query and fragment are cleared. |
| Client.InterfaceAt | src/web.rs:98-110 | An explicit URL wins. Otherwise the result succeeds exactly when rebasing does, and then uses the rebased URL. The awc client is shared. |
| Client.EndpointUrl | src/web.rs:66-71 | The endpoint is the base's directory followed by the suffix, on the same origin, with no query or fragment. |
| Client.Request | src/web.rs:73-96 | A request carries its method and the text of the endpoint URL. |
| Client.ServiceEndpoint | src/web.rs:42-110 | Through a rebased service, a request's URL is the base joined with the service suffix plus the endpoint suffix. |
| Client.ParseHeaderName | src/web.rs:215-216 | `HeaderName::from_str` accepts exactly non-empty token names of at most 64 KiB, and stores them in lower case. |
| Client.IsHeaderValue | src/web.rs:217 | `HeaderValue::from_str` accepts a tab and every character from space up except DEL, and rejects every other control character. `InsertStored` keeps every stored value valid. |
| Client.HeaderNameCase | src/web.rs:215-216 | A header name and its lower-case form parse alike. |
| Client.Lookup | src/web.rs:219 | The value a header map holds under a name, found exactly when some entry has that name. |
| Client.Insert | src/web.rs:219 | `HeaderMap::insert`: replaces the value of an existing name in its place, else adds the name at the end. `InsertOrder`, `InsertLookup` and `InsertDistinct` state its effect. |
| Client.InsertLookup | src/web.rs:219 | After `HeaderMap::insert`, the name maps to the new value and every other name keeps its value. |
| Client.InsertDistinct | src/web.rs:219 | An insertion keeps names distinct, and the map grows only when the name is new. |
| Client.InsertOrder | src/web.rs:219 | On a map with distinct names, an existing name's entry is replaced where it stands and every other entry keeps its place; a new name goes after all others. This is the order in which `build` (src/web.rs:233) walks the headers. |
| Client.AuthHeaders | src/web.rs:231-235 | Bearer auth contributes `authorization: Bearer <token>` when that is a valid header value, and nothing otherwise. |
| Client.WebClientBuilder.constructor | src/web.rs:247-256 | `Default` has no URL, no auth, no headers and no timeout. |
| Client.WebClientBuilder.AuthToken | src/web.rs:200-203 | Sets the bearer token and nothing else. |
| Client.WebClientBuilder.ApiUrl | src/web.rs:205-208 | Sets the API URL and nothing else. |
| Client.WebClientBuilder.Timeout | src/web.rs:210-213 | Sets the timeout and nothing else. |
| Client.WebClientBuilder.Header | src/web.rs:215-221 | An invalid name gives `InvalidHeaderName` and an invalid value gives `InvalidHeaderValue`, checked in that order. Otherwise the header is inserted under its lower-case name. Stored headers stay valid and distinct. |
| Client.WebClientBuilder.Build | src/web.rs:223-244 | The base URL is the one set, else `rest_api_url`. The timeout is the one set, else none. The default headers are the auth header followed by the stored headers in order. |
| Client.WithToken | src/web.rs:62-64 | A default builder with the token, built: the default URL, no timeout, and only the auth header. |

## Left out

- **Transport.** Sending requests and awaiting responses are not modelled: awc, async code, the
  body stream and `send_json`/`send`. A request's outcome enters `Responses.ReadJson` as a value.
  `log` calls are not modelled.
- **Environment variables.** The process environment is a parameter, a map from names to
  values (`Client.Environment`). `env::var` failing on non-Unicode text counts as unset.
- **HTTP methods.** `Client.Method` lists the four methods the client's helpers use. `request`
  accepts any `awc::http::Method`, but the model only carries the method into the request, so
  the others would behave the same.
- **URL parsing.** `Url::parse` and `Url::from_str` are a parameter, `Client.UrlParser`.
- **Cannot-be-a-base URLs.** Only hierarchical URLs are modelled (`Urls.BaseUrl`).
- Urls.Join: models only plain relative paths. That excludes an absolute URL, a leading `/`,
  `.` or `..` segments, a query or fragment, `%`, `:`, and characters that need
  percent-encoding. `RebaseServiceUrl`, `EndpointUrl` and `Request` require plain suffixes for
  the same reason. The source's `request` would panic on an unparsable suffix.
- **Target-type decoding.** serde decoding of the caller's target type `T` is a parameter of
  `Responses.ReadJson`.
- **Error bodies.** awc's `ClientResponse::json` for the error body is a parameter: content-type
  check, size limit and decoding of `ErrorMessage`.
- **Opaque payloads.** `Rejection`, `ErrorMessage`, the chrono timestamp and the errors of other
  crates are held by their JSON members, fields or display text. `InvoiceEvent.DecodeEvent`
  accepts any string as a date, since chrono's RFC 3339 parser is not part of this model.
- **Error display.** The thiserror `Display` texts of `Error` are not modelled, because most of
  them show a payload from another crate. The messages this crate computes and stores (`msg`)
  are modelled.
- **`InvalidAddress`.** `Error::InvalidAddress(Infallible)` cannot be constructed and is left out.
- **`format!` limits.** Only ASCII identifiers and no format specs (`{:?}`, width, …) are
  modelled. The macro's arguments enter as their display text. Implicit capture of a local
  variable named in the template (Rust 2021) is not modelled: such a name is an unknown
  argument here.
- **Query parsing.** The query parser is a reference inverse for the serializer only. It rejects
  malformed UTF-8 rather than replacing it lossily.
- **awc internals.** The client's own default timeout is not modelled, because `build` always
  sets or disables it. awc's header storage is modelled as appending, in order.
- **Header checks.** The rules in `Client.ParseHeaderName` and `Client.IsHeaderValue` follow the
  http crate, which is not part of this model.
- Client.WebClientBuilder.Header: in the source, a failing `header` consumes the builder. Here
  the error is returned and the builder is left as it was.
- Client.WebClientBuilder.Build, Client.RestApiUrl, Client.WithToken: the panic of
  `rest_api_url` on an unparsable URL is a precondition.
- InvoiceStatus.FromString: the panic on unknown text is a precondition (`IsStatusText`).
- Responses.CanonicalReason: the reason table is the http crate's. Only the 2xx reasons are
  proved plain JSON text, since only they reach the empty-body placeholder.
- **Other files.** `model/src/market/demand_offer_base.rs` and `model/src/payment/allocation.rs`
  are not part of this model.
