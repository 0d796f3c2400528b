/** The request side of the proxy: an inbound envelope becomes a request to
    a backend service, or a 400, or nothing at all. */
module ProxyRequest {
  import opened Wrappers
  import opened Descriptor
  import opened HttpHeaders
  import RequestParams
  import Strings
  import Decimal
  import AesUtil
  import Ecb
  import Utf8

  // ---------------------------------------------------------------------
  // Method resolution

  datatype HttpMethod = GET | HEAD | POST | PUT | PATCH | DELETE | OPTIONS | TRACE

  function Name(m: HttpMethod): string
  {
    match m
    case GET => "GET"
    case HEAD => "HEAD"
    case POST => "POST"
    case PUT => "PUT"
    case PATCH => "PATCH"
    case DELETE => "DELETE"
    case OPTIONS => "OPTIONS"
    case TRACE => "TRACE"
  }

  /** `HttpMethod.resolve`: the method whose name is exactly `s`, letter case
      included. */
  function Resolve(s: string): (r: Option<HttpMethod>)
    ensures r.Some? ==> Name(r.value) == s
    ensures r.None? ==> forall m: HttpMethod :: Name(m) != s
  {
    if s == "GET" then Some(GET)
    else if s == "HEAD" then Some(HEAD)
    else if s == "POST" then Some(POST)
    else if s == "PUT" then Some(PUT)
    else if s == "PATCH" then Some(PATCH)
    else if s == "DELETE" then Some(DELETE)
    else if s == "OPTIONS" then Some(OPTIONS)
    else if s == "TRACE" then Some(TRACE)
    else None
  }

  /** Every method's name resolves back to it. */
  lemma ResolveName(m: HttpMethod)
    ensures Resolve(Name(m)) == Some(m)
  {
  }

  /** The outbound request's method: the descriptor's, or `POST` when its
      name is not one of the known methods. */
  function OutboundMethod(verb: string): (r: HttpMethod)
    ensures (exists m: HttpMethod :: Name(m) == verb) ==> Name(r) == verb
    ensures (forall m: HttpMethod :: Name(m) != verb) ==> r == POST
  {
    match Resolve(verb)
    case Some(m) => m
    case None => POST
  }

  // ---------------------------------------------------------------------
  // The outbound URI

  /** The outbound URI is left as the `UriComponentsBuilder` calls that make
      it; how the builder merges them is not part of this model. */
  datatype UriStep =
    | FromRequest                  // start from the inbound request's URI
    | SetUri(base: string)         // the service's base URI
    | SetPort(port: int)
    | ReplacePath(path: string)
    | Query(query: Option<string>) // `query(null)` for `None`
  type Uri = seq<UriStep>

  /** The descriptor path cut at its first `?`. */
  function SplitPath(path: string): (r: (string, Option<string>))
    ensures r.1.None? <==> '?' !in path
    ensures r.1.None? ==> r.0 == path
    ensures r.1.Some? ==> '?' !in r.0 && path == r.0 + "?" + r.1.value
  {
    Strings.SplitFirst(path, '?')
  }

  /** The builder calls for the path: the whole path, or the part before the
      first `?` followed by the rest as the query. */
  function PathSteps(path: string): (r: Uri)
    ensures |r| == 1 || |r| == 2
    ensures r[0] == ReplacePath(SplitPath(path).0)
    ensures |r| == 2 <==> '?' in path
  {
    match SplitPath(path)
    case (p, None) => [ReplacePath(p)]
    case (p, Some(q)) => [ReplacePath(p), Query(Some(q))]
  }

  /** What `buildUri` needs: a known service, a port and a path. */
  predicate Routable(serviceHost: map<string, string>, d: ProxyConfig)
  {
    Usable(d) && d.service.value in serviceHost && d.port.Some? && d.path.Some?
  }

  /** `buildUri`: the inbound URI, re-pointed at the service's base URI and
      the descriptor's port and path; a `GET` also sets the query to the
      rendered parameters. */
  function BuildUri(serviceHost: map<string, string>, d: ProxyConfig, toJson: Params -> Option<string>): (r: Uri)
    requires Routable(serviceHost, d)
    ensures |r| >= 4
    ensures r[..3] == [FromRequest, SetUri(serviceHost[d.service.value]), SetPort(d.port.value)]
    ensures r[3] == ReplacePath(SplitPath(d.path.value).0)
  {
    var head := [FromRequest, SetUri(serviceHost[d.service.value]), SetPort(d.port.value)];
    var params := if d.verb == Some(RequestParams.Get) then [Query(RequestParams.BuildRequestParams(d, toJson))] else [];
    head + PathSteps(d.path.value) + params
  }

  // ---------------------------------------------------------------------
  // The outbound headers

  /** The headers of the outbound request, in the order the decorator builds
      them: a copy of the inbound headers, `Content-Length` set to the
      cached length, `Transfer-Encoding: chunked` as well when that length
      is not positive, each descriptor header set in turn, and the content
      type set last. */
  function OutboundHeaders(inbound: Headers, cachedLength: int, d: ProxyConfig): (r: Headers)
    requires WellFormed(inbound) && Usable(d)
    ensures WellFormed(r)
  {
    var h0 := PutAll([], inbound);
    var h1 := Set(h0, ContentLength, Decimal.Format(cachedLength));
    var h2 := if cachedLength <= 0 then Set(h1, TransferEncoding, "chunked") else h1;
    var h3 := if d.headers.Some? then SetAll(h2, d.headers.value) else h2;
    Set(h3, HttpHeaders.ContentType, Descriptor.ContentType(d).value)
  }

  /** The descriptor header a run of `set`s leaves under `m`. */
  function DescriptorValue(d: ProxyConfig, m: string): Option<string>
  {
    if d.headers.Some? then LastValue(d.headers.value, m) else None
  }

  /** Each outbound header's values, by precedence: the content type always
      wins; then the last descriptor header of that name; then `chunked` for
      `Transfer-Encoding` when the length is not positive; then the cached
      length for `Content-Length`; and otherwise the inbound values. */
  lemma OutboundHeaderValues(inbound: Headers, cachedLength: int, d: ProxyConfig, m: string)
    requires WellFormed(inbound) && Usable(d)
    ensures GetOrEmpty(OutboundHeaders(inbound, cachedLength, d), m) ==
      if SameName(m, HttpHeaders.ContentType) then [Descriptor.ContentType(d).value]
      else if DescriptorValue(d, m).Some? then [DescriptorValue(d, m).value]
      else if SameName(m, TransferEncoding) && cachedLength <= 0 then ["chunked"]
      else if SameName(m, ContentLength) then [Decimal.Format(cachedLength)]
      else GetOrEmpty(inbound, m)
  {
    CopyAll(inbound);
    var h0 := PutAll([], inbound);
    var h1 := Set(h0, ContentLength, Decimal.Format(cachedLength));
    var h2 := if cachedLength <= 0 then Set(h1, TransferEncoding, "chunked") else h1;
    var h3 := if d.headers.Some? then SetAll(h2, d.headers.value) else h2;
    GetPut(h0, ContentLength, [Decimal.Format(cachedLength)], m);
    if cachedLength <= 0 {
      GetPut(h1, TransferEncoding, ["chunked"], m);
    }
    if d.headers.Some? {
      GetSetAll(h2, d.headers.value, m);
    }
    GetPut(h3, HttpHeaders.ContentType, [Descriptor.ContentType(d).value], m);
  }

  /** A non-positive cached length leaves the outbound request with both a
      `Content-Length` and `Transfer-Encoding: chunked` unless the
      descriptor overrides them. */
  lemma ChunkedAlsoCarriesLength(inbound: Headers, cachedLength: int, d: ProxyConfig)
    requires WellFormed(inbound) && Usable(d) && cachedLength <= 0
    requires DescriptorValue(d, ContentLength).None? && DescriptorValue(d, TransferEncoding).None?
    ensures GetOrEmpty(OutboundHeaders(inbound, cachedLength, d), TransferEncoding) == ["chunked"]
    ensures GetOrEmpty(OutboundHeaders(inbound, cachedLength, d), ContentLength) == [Decimal.Format(cachedLength)]
  {
    OutboundHeaderValues(inbound, cachedLength, d, TransferEncoding);
    OutboundHeaderValues(inbound, cachedLength, d, ContentLength);
    assert Fold(TransferEncoding)[0] != Fold(HttpHeaders.ContentType)[0];
    assert Fold(ContentLength)[8] != Fold(HttpHeaders.ContentType)[8];
  }

  // ---------------------------------------------------------------------
  // The route override

  /** The parts of a gateway route this filter reads or writes; `P` and `F`
      stand for the predicate and filter types. */
  datatype Route<P, F> = Route(id: string, uri: Uri, order: int, matcher: P, filters: seq<F>)

  /** `modifiyRoute`: a new route built from scratch with the service as id,
      the new URI, the old predicate and filters, and the builder's default
      order 0; the URI is also stored as the request URL. */
  function ModifyRoute<P, F>(route: Route<P, F>, uri: Uri, service: string): (r: (Route<P, F>, Uri))
    ensures r.0.matcher == route.matcher && r.0.filters == route.filters
    ensures r.0.id == service && r.0.uri == uri && r.0.order == 0
    ensures r.1 == r.0.uri
  {
    (Route(service, uri, 0, route.matcher, route.filters), uri)
  }

  // ---------------------------------------------------------------------
  // The filter

  /** The filter configuration; `None` is a Java `null`. */
  datatype FilterConfig = FilterConfig(
    encryptEnable: Option<bool>,
    encryptKey: Option<string>,
    serviceHost: Option<map<string, string>>)

  /** The inbound request: headers and body text (empty when there is none). */
  datatype Inbound = Inbound(headers: Headers, body: string)

  /** The request handed on down the chain. */
  datatype Outbound = Outbound(verb: HttpMethod, uri: Uri, headers: Headers, body: Option<string>)

  /** How the filter finishes: without calling the chain, with an error
      status, or by forwarding; a forward also records the descriptor, the
      new route and the request URL in the exchange. */
  datatype Outcome<P, F> =
    | Completed
    | Rejected(status: int)
    | Forwarded(request: Outbound, descriptor: ProxyConfig, route: Route<P, F>, requestUrl: Uri)

  const BadRequest: int := 400

  /** The JSON parser and serialiser and the block cipher, which this model
      leaves abstract. A parser result of `None` is a parse exception. */
  datatype Collaborators = Collaborators(
    cipher: Ecb.BlockCipher,
    parse: string -> Option<Envelope>,
    toJson: Params -> Option<string>)

  /** `parseBody`: decrypt when enabled, then parse. Every exception is
      caught and gives no descriptor: a null `encryptEnable`, a null key, a
      failed decryption or a parse error. */
  function ParseBody(body: string, config: FilterConfig, env: Collaborators): (r: Option<ProxyConfig>)
    ensures config.encryptEnable.None? ==> r.None?
    ensures config.encryptEnable == Some(true) && config.encryptKey.None? ==> r.None?
    ensures config.encryptEnable == Some(false) ==>
      r == (match env.parse(body) case Some(e) => Some(FromEnvelope(e)) case None => None)
    ensures (config.encryptEnable == Some(true) && config.encryptKey.Some?
             && AesUtil.Decrypt(env.cipher, body, config.encryptKey.value).Failure?) ==> r.None?
    ensures (config.encryptEnable == Some(true) && config.encryptKey.Some?
             && AesUtil.Decrypt(env.cipher, body, config.encryptKey.value).Success?) ==>
      var plain := AesUtil.Decrypt(env.cipher, body, config.encryptKey.value).value;
      r == (match env.parse(plain) case Some(e) => Some(FromEnvelope(e)) case None => None)
  {
    match config.encryptEnable
    case None => None
    case Some(enabled) =>
      var plain :=
        if !enabled then Some(body)
        else if config.encryptKey.None? then None
        else AesUtil.Decrypt(env.cipher, body, config.encryptKey.value).ToOption();
      match plain
      case None => None
      case Some(text) =>
        match env.parse(text)
        case None => None
        case Some(e) => Some(FromEnvelope(e))
  }

  /** An envelope encrypted with the configured key parses exactly like its
      plain text. */
  lemma EncryptedEnvelope(json: string, config: FilterConfig, env: Collaborators)
    requires config.encryptEnable == Some(true) && config.encryptKey.Some?
    requires Ecb.IsPermutation(env.cipher) && Ecb.ValidKey(AesUtil.KeyBytes(config.encryptKey.value))
    ensures AesUtil.Encrypt(env.cipher, json, config.encryptKey.value).Success?
    ensures ParseBody(AesUtil.Encrypt(env.cipher, json, config.encryptKey.value).value, config, env)
         == ParseBody(json, config.(encryptEnable := Some(false)), env)
  {
    AesUtil.DecryptEncrypt(env.cipher, json, config.encryptKey.value);
  }

  /** What the descriptor must satisfy for the code not to dereference a
      null: a content type readable wherever it is asked for, and a known
      service, a port and a path once the descriptor is usable. */
  predicate Safe(d: ProxyConfig, serviceHost: map<string, string>)
  {
    && (d.verb == Some(RequestParams.Post) && HasParams(d) ==> ContentTypeReadable(d))
    && (d.service.Some? && d.verb.Some? ==> ContentTypeReadable(d))
    && (Usable(d) ==> Routable(serviceHost, d))
  }

  /** `parseAndModifyBody`: the descriptor stored in the exchange and the new
      body. An empty inbound body stores nothing; only a `POST` descriptor
      gets a body, its rendered parameters. */
  function ParseAndModifyBody(body: string, config: FilterConfig, env: Collaborators): (r: (Option<ProxyConfig>, Option<string>))
    requires var d := ParseBody(body, config, env);
             d.Some? && d.value.verb == Some(RequestParams.Post) && HasParams(d.value) ==> ContentTypeReadable(d.value)
    ensures body == [] ==> r.0.None?
    ensures body != [] ==> r.0 == ParseBody(body, config, env)
    ensures r.1.Some? ==> r.0.Some? && r.0.value.verb == Some(RequestParams.Post) && HasParams(r.0.value)
  {
    if body == [] then (None, None)
    else
      match ParseBody(body, config, env)
      case None => (None, None)
      case Some(d) =>
        (Some(d), if d.verb == Some(RequestParams.Post) then RequestParams.BuildRequestParams(d, env.toJson) else None)
  }

  /** The filter's precondition: whatever descriptor arrives is `Safe`, and
      the inbound headers form a proper header map. */
  predicate Admissible(config: FilterConfig, inbound: Inbound, env: Collaborators)
  {
    && WellFormed(inbound.headers)
    && (config.serviceHost.Some? ==>
          var d := ParseBody(inbound.body, config, env);
          d.Some? ==> Safe(d.value, config.serviceHost.value))
  }

  /** `apply`. No routing table, or an empty one, completes at once. Otherwise
      the body is parsed; no descriptor, or one without service, method or
      content type, is a 400; a usable one is forwarded with the outbound
      method, URI, headers and body, and the route overridden.
      `cachedLength` is the `Content-Length` the body writer left in the
      cached headers (`-1` when there is none). */
  function Apply<P, F>(config: FilterConfig, inbound: Inbound, route: Route<P, F>, cachedLength: int, env: Collaborators): (r: Outcome<P, F>)
    requires Admissible(config, inbound, env)
    ensures r.Completed? <==> config.serviceHost.None? || |config.serviceHost.value| == 0
    ensures r.Rejected? ==> r.status == BadRequest
    ensures r.Rejected? <==>
      && config.serviceHost.Some? && |config.serviceHost.value| > 0
      && (inbound.body == [] || ParseBody(inbound.body, config, env).None?
          || !Usable(ParseBody(inbound.body, config, env).value))
    ensures r.Forwarded? ==> Routable(config.serviceHost.value, r.descriptor)
    ensures r.Forwarded? ==> r.descriptor == ParseBody(inbound.body, config, env).value
  {
    if config.serviceHost.None? || |config.serviceHost.value| == 0 then Completed
    else
      var (stored, body) := ParseAndModifyBody(inbound.body, config, env);
      if stored.None? || !Usable(stored.value) then Rejected(BadRequest)
      else
        var d := stored.value;
        var uri := BuildUri(config.serviceHost.value, d, env.toJson);
        var (newRoute, url) := ModifyRoute(route, uri, d.service.value);
        var request := Outbound(OutboundMethod(d.verb.value), uri, OutboundHeaders(inbound.headers, cachedLength, d), body);
        Forwarded(request, d, newRoute, url)
  }

  /** Where the parameters go in a forwarded request: into the body only for
      exactly `POST`, into the query only for exactly `GET`, and nowhere for
      any other method name, even one that falls back to `POST`. */
  lemma ParamsPlacement<P, F>(config: FilterConfig, inbound: Inbound, route: Route<P, F>, cachedLength: int, env: Collaborators)
    requires Admissible(config, inbound, env)
    requires Apply(config, inbound, route, cachedLength, env).Forwarded?
    ensures var r := Apply(config, inbound, route, cachedLength, env);
            var d := r.descriptor;
            && (d.verb == Some(RequestParams.Post) ==> r.request.body == RequestParams.BuildRequestParams(d, env.toJson))
            && (d.verb != Some(RequestParams.Post) ==> r.request.body.None?)
            && (d.verb == Some(RequestParams.Get) ==>
                  r.request.uri[|r.request.uri| - 1] == Query(RequestParams.BuildRequestParams(d, env.toJson)))
            && (d.verb != Some(RequestParams.Get) ==>
                  r.request.uri == r.request.uri[..3] + PathSteps(d.path.value))
  {
    var r := Apply(config, inbound, route, cachedLength, env);
    var d := r.descriptor;
    var uri := BuildUri(config.serviceHost.value, d, env.toJson);
    assert r.request.uri == uri;
  }

  /** A forward whose descriptor has no parameters has no body, and a `GET`
      ends by setting the query to null. */
  lemma NoParamsNoPayload<P, F>(config: FilterConfig, inbound: Inbound, route: Route<P, F>, cachedLength: int, env: Collaborators)
    requires Admissible(config, inbound, env)
    requires Apply(config, inbound, route, cachedLength, env).Forwarded?
    requires !HasParams(Apply(config, inbound, route, cachedLength, env).descriptor)
    ensures Apply(config, inbound, route, cachedLength, env).request.body.None?
    ensures var r := Apply(config, inbound, route, cachedLength, env);
            r.descriptor.verb == Some(RequestParams.Get) ==> r.request.uri[|r.request.uri| - 1] == Query(None)
  {
    ParamsPlacement(config, inbound, route, cachedLength, env);
  }

  /** A forwarded request carries the outbound method resolved from the
      descriptor, the headers merged as `OutboundHeaders` says, a route whose
      predicate and filters are the old ones, and the route's URI as the
      request URL and the request URI. */
  lemma ForwardedRequest<P, F>(config: FilterConfig, inbound: Inbound, route: Route<P, F>, cachedLength: int, env: Collaborators)
    requires Admissible(config, inbound, env)
    requires Apply(config, inbound, route, cachedLength, env).Forwarded?
    ensures var r := Apply(config, inbound, route, cachedLength, env);
            var d := r.descriptor;
            && r.request.verb == OutboundMethod(d.verb.value)
            && r.request.headers == OutboundHeaders(inbound.headers, cachedLength, d)
            && r.route.matcher == route.matcher && r.route.filters == route.filters
            && r.route.id == d.service.value && r.route.order == 0
            && r.route.uri == r.request.uri && r.requestUrl == r.request.uri
            && r.request.uri == BuildUri(config.serviceHost.value, d, env.toJson)
    ensures var r := Apply(config, inbound, route, cachedLength, env);
            var d := r.descriptor;
            && ((exists m: HttpMethod :: Name(m) == d.verb.value) ==> Name(r.request.verb) == d.verb.value)
            && ((forall m: HttpMethod :: Name(m) != d.verb.value) ==> r.request.verb == POST)
            && GetOrEmpty(r.request.headers, HttpHeaders.ContentType) == [Descriptor.ContentType(d).value]
  {
    var r := Apply(config, inbound, route, cachedLength, env);
    OutboundHeaderValues(inbound.headers, cachedLength, r.descriptor, HttpHeaders.ContentType);
  }
}
