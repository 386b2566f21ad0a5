/** The client object of src/web.rs: where its base URL comes from (`rest_api_url`,
    `WebInterface::rebase_service_url`, `WebClient::interface_at`), the endpoint URLs it
    builds, and `WebClientBuilder`, which collects settings in place and turns them into the
    awc client's configuration. The process environment and URL parsing are parameters. */
module Client {
  import opened Wrappers
  import opened Errors
  import opened Urls
  import Strings

  const YagnaApiUrlEnvVar := "YAGNA_API_URL"
  const DefaultYagnaApiUrl := "http://127.0.0.1:7465"

  /** `url::Url::parse`, which this model does not implement. */
  type UrlParser = string -> Result<BaseUrl, string>

  /** The process environment: each set variable and its value. */
  type Environment = map<string, string>

  /** `std::env::var(name).ok()`. */
  function Var(env: Environment, name: string): Option<string>
  {
    if name in env then Some(env[name]) else None
  }

  /** `rest_api_url`: the URL named by `YAGNA_API_URL`, else the default; the source panics
      when that text does not parse, which is this function's precondition. */
  function RestApiUrl(env: Environment, parse: UrlParser): (u: BaseUrl)
    requires parse(Var(env, YagnaApiUrlEnvVar).GetOr(DefaultYagnaApiUrl)).Success?
    ensures YagnaApiUrlEnvVar in env ==> parse(env[YagnaApiUrlEnvVar]) == Success(u)
    ensures YagnaApiUrlEnvVar !in env ==> parse(DefaultYagnaApiUrl) == Success(u)
  {
    parse(Var(env, YagnaApiUrlEnvVar).GetOr(DefaultYagnaApiUrl)).value
  }

  /** A `WebInterface` implementation: its environment variable and the path of its API
      relative to the client's base URL. */
  datatype Service = Service(apiUrlEnvVar: string, apiSuffix: string)

  /** `rebase_service_url`: the service's own environment variable overrides the base
      entirely; otherwise the suffix is joined to the base, which drops its query and
      fragment. */
  function RebaseServiceUrl(service: Service, base: BaseUrl, env: Environment, parse: UrlParser): (r: Result<BaseUrl, Error>)
    requires PlainRelative(service.apiSuffix)
    ensures service.apiUrlEnvVar in env && parse(env[service.apiUrlEnvVar]).Success? ==>
              r == Success(parse(env[service.apiUrlEnvVar]).value)
    ensures service.apiUrlEnvVar in env && parse(env[service.apiUrlEnvVar]).Failure? ==>
              r == Failure(UrlParseError(parse(env[service.apiUrlEnvVar]).error))
    ensures service.apiUrlEnvVar !in env ==>
              r.Success? && r.value.origin == base.origin
              && r.value.path == Directory(base.path) + service.apiSuffix
              && r.value.query.None? && r.value.fragment.None?
  {
    match Var(env, service.apiUrlEnvVar)
    case Some(text) =>
      (match parse(text)
       case Success(u) => Success(u)
       case Failure(e) => Failure(UrlParseError(e)))
    case None => Success(Join(base, service.apiSuffix))
  }

  /** A duration, in nanoseconds. */
  type Duration = nat

  /** The part of awc's client this crate configures: the request timeout (`None` once
      disabled) and the default headers, in the order they were added. */
  datatype AwcClient = AwcClient(timeout: Option<Duration>, defaultHeaders: seq<(string, string)>)

  datatype WebClient = WebClient(baseUrl: BaseUrl, awc: AwcClient)

  /** `interface_at`: an explicit base URL wins; without one the service rebases the
      client's own. The awc client is shared either way. */
  function InterfaceAt(client: WebClient, baseUrl: Option<BaseUrl>, service: Service,
                       env: Environment, parse: UrlParser): (r: Result<WebClient, Error>)
    requires PlainRelative(service.apiSuffix)
    ensures r.Success? ==> r.value.awc == client.awc
    ensures baseUrl.Some? ==> r == Success(WebClient(baseUrl.value, client.awc))
    ensures baseUrl.None? ==>
              (r.Success? <==> RebaseServiceUrl(service, client.baseUrl, env, parse).Success?)
    ensures baseUrl.None? && r.Success? ==> r.value.baseUrl == RebaseServiceUrl(service, client.baseUrl, env, parse).value
  {
    match baseUrl
    case Some(u) => Success(WebClient(u, client.awc))
    case None =>
      match RebaseServiceUrl(service, client.baseUrl, env, parse)
      case Success(u) => Success(WebClient(u, client.awc))
      case Failure(e) => Failure(e)
  }

  /** `WebClient::url`: the endpoint `suffix` joined to the base URL. */
  function EndpointUrl(client: WebClient, suffix: string): (u: Url)
    requires PlainRelative(suffix)
    ensures u.Valid() && u.origin == client.baseUrl.origin && u.query.None? && u.fragment.None?
    ensures u.path == Directory(client.baseUrl.path) + suffix
  {
    Join(client.baseUrl, suffix)
  }

  /** The HTTP methods the client's helpers name (`get`, `post`, `put`, `delete`); the model
      only carries the method through, so any other method behaves alike. */
  datatype Method = Get | Post | Put | Delete

  /** The request `request` prepares: its method (its HTTP method) and the text of its URL. */
  datatype WebRequest = WebRequest(verb: Method, url: string)

  /** `WebClient::request` (and `get`, `post`, `put`, `delete` with their methods). */
  function Request(client: WebClient, verb: Method, suffix: string): (r: WebRequest)
    requires PlainRelative(suffix)
    ensures r.verb == verb && r.url == ToText(EndpointUrl(client, suffix))
  {
    WebRequest(verb, ToText(EndpointUrl(client, suffix)))
  }

  /** A service reached through the client's own base URL serves an endpoint at the base's
      directory followed by the service suffix and the endpoint suffix. */
  lemma ServiceEndpoint(client: WebClient, service: Service, env: Environment, parse: UrlParser, suffix: string)
    requires PlainRelative(service.apiSuffix) && PlainRelative(suffix)
    requires service.apiSuffix[|service.apiSuffix| - 1] == '/'
    requires service.apiUrlEnvVar !in env
    ensures InterfaceAt(client, None, service, env, parse).Success?
    ensures PlainRelative(service.apiSuffix + suffix)
    ensures Request(InterfaceAt(client, None, service, env, parse).value, Get, suffix).url
         == ToText(Join(client.baseUrl, service.apiSuffix + suffix))
  {
    JoinJoin(client.baseUrl, service.apiSuffix, suffix);
  }

  // Header names and values, as the http crate checks them.

  /** A `tchar` of section 3.2.6 of RFC 7230. */
  predicate IsTokenChar(c: char)
  {
    ('a' <= c <= 'z') || ('A' <= c <= 'Z') || ('0' <= c <= '9')
    || c in {'!', '#', '$', '%', '&', '\'', '*', '+', '-', '.', '^', '_', '`', '|', '~'}
  }

  function LowerChar(c: char): (l: char)
    ensures IsTokenChar(c) ==> IsTokenChar(l)
    ensures !('A' <= l <= 'Z')
  {
    if 'A' <= c <= 'Z' then (c as int + 32) as char else c
  }

  function Lower(s: string): (l: string)
    ensures |l| == |s| && forall i :: 0 <= i < |s| ==> l[i] == LowerChar(s[i])
  {
    if s == [] then [] else [LowerChar(s[0])] + Lower(s[1..])
  }

  const MaxHeaderNameLength := 0x1_0000

  /** `HeaderName::from_str`: a non-empty name of at most 64 KiB token characters, in lower
      case. */
  function ParseHeaderName(name: string): (r: Option<string>)
    ensures r.Some? <==> 1 <= |name| <= MaxHeaderNameLength && forall i :: 0 <= i < |name| ==> IsTokenChar(name[i])
    ensures r.Some? ==> IsHeaderName(r.value) && r.value == Lower(name)
  {
    if 1 <= |name| <= MaxHeaderNameLength && forall i :: 0 <= i < |name| ==> IsTokenChar(name[i]) then
      Some(Lower(name))
    else None
  }

  /** A name `ParseHeaderName` can produce. */
  predicate IsHeaderName(n: string)
  {
    1 <= |n| <= MaxHeaderNameLength && forall i :: 0 <= i < |n| ==> IsTokenChar(n[i]) && !('A' <= n[i] <= 'Z')
  }

  /** `HeaderValue::from_str`: every byte is printable, a tab, or not ASCII; for text, no
      control character but the tab and no DEL. */
  predicate IsHeaderValue(v: string)
  {
    forall i :: 0 <= i < |v| ==> v[i] == '\t' || (v[i] >= ' ' && v[i] != '\U{7F}')
  }

  /** Header names are case-insensitive: a name and its lower-case form parse alike. */
  lemma {:induction false} HeaderNameCase(name: string)
    ensures ParseHeaderName(Lower(name)) == ParseHeaderName(name)
  {
    LowerIdempotent(name);
    if ParseHeaderName(name).None? && 1 <= |name| <= MaxHeaderNameLength {
      var i :| 0 <= i < |name| && !IsTokenChar(name[i]);
      assert !IsTokenChar(Lower(name)[i]);
    }
  }

  lemma {:induction false} LowerIdempotent(s: string)
    ensures Lower(Lower(s)) == Lower(s)
  {
    var l := Lower(s);
    assert forall i :: 0 <= i < |l| ==> LowerChar(l[i]) == l[i];
  }

  // The header map of the builder.

  /** The value stored under `name`. */
  function Lookup(headers: seq<(string, string)>, name: string): (r: Option<string>)
    ensures r.Some? <==> exists i :: 0 <= i < |headers| && headers[i].0 == name
  {
    if headers == [] then None
    else if headers[0].0 == name then Some(headers[0].1)
    else
      var r := Lookup(headers[1..], name);
      assert forall i :: 1 <= i < |headers| ==> headers[i] == headers[1..][i - 1];
      r
  }

  /** `HeaderMap::insert`: the value of an existing name is replaced in its place; a new name
      goes at the end. */
  function Insert(headers: seq<(string, string)>, name: string, value: string): (r: seq<(string, string)>)
  {
    if headers == [] then [(name, value)]
    else if headers[0].0 == name then [(name, value)] + headers[1..]
    else [headers[0]] + Insert(headers[1..], name, value)
  }

  lemma DistinctTail(headers: seq<(string, string)>)
    requires headers != [] && Strings.DistinctNames(headers)
    ensures Strings.DistinctNames(headers[1..])
    ensures forall i :: 0 <= i < |headers[1..]| ==> headers[1..][i].0 != headers[0].0
  {
    forall i, j | 0 <= i < j < |headers[1..]|
      ensures headers[1..][i].0 != headers[1..][j].0
    {
      assert headers[1..][i] == headers[i + 1] && headers[1..][j] == headers[j + 1];
    }
    forall i | 0 <= i < |headers[1..]|
      ensures headers[1..][i].0 != headers[0].0
    {
      assert headers[1..][i] == headers[i + 1];
    }
  }

  /** After an insertion the name maps to the new value and every other name keeps its
      value. */
  lemma {:induction false} InsertLookup(headers: seq<(string, string)>, name: string, value: string, other: string)
    ensures Lookup(Insert(headers, name, value), name) == Some(value)
    ensures other != name ==> Lookup(Insert(headers, name, value), other) == Lookup(headers, other)
  {
    if headers != [] && headers[0].0 != name {
      InsertLookup(headers[1..], name, value, other);
      var r := Insert(headers, name, value);
      assert r[0] == headers[0] && r[1..] == Insert(headers[1..], name, value);
    } else if headers != [] {
      var r := Insert(headers, name, value);
      assert r[1..] == headers[1..];
    }
  }

  /** An insertion keeps the order of a map with distinct names: an existing name's entry is
      replaced where it stands, and a new name is added after every other entry. */
  lemma {:induction false} InsertOrder(headers: seq<(string, string)>, name: string, value: string)
    requires Strings.DistinctNames(headers)
    ensures Lookup(headers, name).None? ==> Insert(headers, name, value) == headers + [(name, value)]
    ensures |Insert(headers, name, value)| >= |headers|
    ensures forall i :: 0 <= i < |headers| ==>
              Insert(headers, name, value)[i] == (if headers[i].0 == name then (name, value) else headers[i])
  {
    if headers != [] {
      var r := Insert(headers, name, value);
      DistinctTail(headers);
      if headers[0].0 == name {
        assert forall i :: 1 <= i < |headers| ==> r[i] == headers[1..][i - 1];
      } else {
        InsertOrder(headers[1..], name, value);
        var rest := Insert(headers[1..], name, value);
        assert r == [headers[0]] + rest;
        assert Lookup(headers, name) == Lookup(headers[1..], name);
        assert forall i :: 1 <= i < |headers| ==> headers[i] == headers[1..][i - 1] && r[i] == rest[i - 1];
        if Lookup(headers, name).None? {
          assert headers == [headers[0]] + headers[1..];
        }
      }
    }
  }

  /** An insertion keeps the names distinct, and grows the map only by a new name. */
  lemma {:induction false} InsertDistinct(headers: seq<(string, string)>, name: string, value: string)
    requires Strings.DistinctNames(headers)
    ensures Strings.DistinctNames(Insert(headers, name, value))
    ensures |Insert(headers, name, value)| == |headers| + (if Lookup(headers, name).Some? then 0 else 1)
  {
    if headers != [] && headers[0].0 != name {
      DistinctTail(headers);
      InsertDistinct(headers[1..], name, value);
      var rest := Insert(headers[1..], name, value);
      var r := [headers[0]] + rest;
      forall i | 0 <= i < |rest|
        ensures rest[i].0 != headers[0].0
      {
        InsertLookup(headers[1..], name, value, headers[0].0);
      }
      forall i, j | 0 <= i < j < |r|
        ensures r[i].0 != r[j].0
      {
        if i == 0 { assert r[j] == rest[j - 1]; }
        else { assert r[i] == rest[i - 1] && r[j] == rest[j - 1]; }
      }
    } else if headers != [] {
      var r := [(name, value)] + headers[1..];
      forall i, j | 0 <= i < j < |r|
        ensures r[i].0 != r[j].0
      {
        if i == 0 { assert r[j] == headers[j]; } else { assert r[i] == headers[i] && r[j] == headers[j]; }
      }
    }
  }

  datatype WebAuth = Bearer(token: string)

  /** The headers awc's `bearer_auth` adds: an `authorization` header, which awc drops when
      its text is not a valid header value. */
  function AuthHeaders(auth: Option<WebAuth>): (hs: seq<(string, string)>)
    ensures auth.None? ==> hs == []
    ensures auth.Some? ==> (hs == [("authorization", "Bearer " + auth.value.token)] <==> IsHeaderValue("Bearer " + auth.value.token))
    ensures auth.Some? ==> (hs == [] <==> !IsHeaderValue("Bearer " + auth.value.token))
  {
    match auth
    case Some(Bearer(token)) =>
      if IsHeaderValue("Bearer " + token) then [("authorization", "Bearer " + token)] else []
    case None => []
  }

  /** `WebClientBuilder`: the settings of a client still to be built. */
  class WebClientBuilder {
    var apiUrl: Option<BaseUrl>
    var auth: Option<WebAuth>
    var headers: seq<(string, string)>
    var timeout: Option<Duration>

    /** Every stored header passed the http crate's checks, and no name is stored twice. */
    predicate Valid()
      reads this
    {
      && Strings.DistinctNames(headers)
      && forall i :: 0 <= i < |headers| ==> IsHeaderName(headers[i].0) && IsHeaderValue(headers[i].1)
    }

    /** `WebClientBuilder::default`. */
    constructor ()
      ensures Valid()
      ensures apiUrl == None && auth == None && headers == [] && timeout == None
    {
      apiUrl := None;
      auth := None;
      headers := [];
      timeout := None;
    }

    /** `auth_token`. */
    method AuthToken(token: string)
      modifies this
      requires Valid()
      ensures Valid()
      ensures auth == Some(Bearer(token))
      ensures apiUrl == old(apiUrl) && headers == old(headers) && timeout == old(timeout)
    {
      auth := Some(Bearer(token));
    }

    /** `api_url`. */
    method ApiUrl(url: BaseUrl)
      modifies this
      requires Valid()
      ensures Valid()
      ensures apiUrl == Some(url)
      ensures auth == old(auth) && headers == old(headers) && timeout == old(timeout)
    {
      apiUrl := Some(url);
    }

    /** `timeout`. */
    method Timeout(d: Duration)
      modifies this
      requires Valid()
      ensures Valid()
      ensures timeout == Some(d)
      ensures apiUrl == old(apiUrl) && auth == old(auth) && headers == old(headers)
    {
      timeout := Some(d);
    }

    /** `header`: the name is checked first, then the value; on success the header is stored
        under its lower-case name, replacing an earlier value of that name. On failure the
        error is returned and nothing is stored. */
    method Header(name: string, value: string) returns (err: Option<Error>)
      modifies this
      requires Valid()
      ensures Valid()
      ensures ParseHeaderName(name).None? ==> err == Some(InvalidHeaderName) && headers == old(headers)
      ensures ParseHeaderName(name).Some? && !IsHeaderValue(value) ==>
                err == Some(InvalidHeaderValue) && headers == old(headers)
      ensures ParseHeaderName(name).Some? && IsHeaderValue(value) ==>
                err == None && headers == Insert(old(headers), Lower(name), value)
      ensures apiUrl == old(apiUrl) && auth == old(auth) && timeout == old(timeout)
    {
      var parsed := ParseHeaderName(name);
      if parsed.None? {
        return Some(InvalidHeaderName);
      }
      if !IsHeaderValue(value) {
        return Some(InvalidHeaderValue);
      }
      InsertDistinct(headers, parsed.value, value);
      InsertStored(headers, parsed.value, value);
      headers := Insert(headers, parsed.value, value);
      return None;
    }

    /** `build`: the base URL is the one set, else `rest_api_url` (whose panic is the second
        precondition); the timeout is the one set, or none at all; the default headers are the
        authorization header followed by the stored headers in order. */
    method Build(env: Environment, parse: UrlParser) returns (client: WebClient)
      requires Valid()
      requires apiUrl.None? ==> parse(Var(env, YagnaApiUrlEnvVar).GetOr(DefaultYagnaApiUrl)).Success?
      ensures apiUrl.Some? ==> client.baseUrl == apiUrl.value
      ensures apiUrl.None? ==> client.baseUrl == RestApiUrl(env, parse)
      ensures client.awc.timeout == timeout
      ensures client.awc.defaultHeaders == AuthHeaders(auth) + headers
    {
      var defaults := AuthHeaders(auth);
      var i := 0;
      while i < |headers|
        invariant 0 <= i <= |headers|
        invariant defaults == AuthHeaders(auth) + headers[..i]
      {
        assert headers[..i + 1] == headers[..i] + [headers[i]];
        defaults := defaults + [headers[i]];
        i := i + 1;
      }
      assert headers[..i] == headers;
      var base := if apiUrl.Some? then apiUrl.value else RestApiUrl(env, parse);
      client := WebClient(base, AwcClient(timeout, defaults));
    }
  }

  /** Every header stored by an insertion of checked parts is itself checked. */
  lemma {:induction false} InsertStored(headers: seq<(string, string)>, name: string, value: string)
    requires forall i :: 0 <= i < |headers| ==> IsHeaderName(headers[i].0) && IsHeaderValue(headers[i].1)
    requires IsHeaderName(name) && IsHeaderValue(value)
    ensures forall i :: 0 <= i < |Insert(headers, name, value)| ==>
              IsHeaderName(Insert(headers, name, value)[i].0) && IsHeaderValue(Insert(headers, name, value)[i].1)
  {
    if headers != [] && headers[0].0 != name {
      assert forall k :: 0 <= k < |headers[1..]| ==> headers[1..][k] == headers[k + 1];
      InsertStored(headers[1..], name, value);
      var rest := Insert(headers[1..], name, value);
      var r := Insert(headers, name, value);
      assert r == [headers[0]] + rest;
      forall i | 0 <= i < |r|
        ensures IsHeaderName(r[i].0) && IsHeaderValue(r[i].1)
      {
        if i > 0 {
          assert r[i] == rest[i - 1];
          assert IsHeaderName(rest[i - 1].0) && IsHeaderValue(rest[i - 1].1);
        }
      }
    }
  }

  /** `WebClient::with_token`: a default builder given the token and built. */
  method WithToken(token: string, env: Environment, parse: UrlParser) returns (client: WebClient)
    requires parse(Var(env, YagnaApiUrlEnvVar).GetOr(DefaultYagnaApiUrl)).Success?
    ensures client.baseUrl == RestApiUrl(env, parse)
    ensures client.awc.timeout == None
    ensures client.awc.defaultHeaders == AuthHeaders(Some(Bearer(token)))
  {
    var builder := new WebClientBuilder();
    builder.AuthToken(token);
    client := builder.Build(env, parse);
  }
}
