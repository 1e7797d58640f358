/** Requests and responses as the handlers see them, and the default rule a
    server handler uses to decide whether a response may be compressed. */
module Messages {
  import opened Wrappers
  import opened Errors
  import opened Contents
  import Text
  import Negotiation

  /** The parts of `HttpRequestMessage` the handlers read: the parsed
      Accept-Encoding entries, the property bag (each value as its
      `ToString()` reads, None for a null value) and the content, null when
      absent. */
  datatype Request = Request(acceptEncoding: seq<Negotiation.Coding>, properties: map<string, Option<string>>, content: Option<Content>)

  /** `HttpResponseMessage`: its content, null when absent. */
  datatype Response = Response(content: Option<Content>)

  /** The request property that switches compression off ("False") or on. */
  const EnableProperty: string := "compression:Enable"

  /** The tokens the base server handler's default rule looks for. */
  const BaseServerTokens: set<string> := {"gzip", "deflate", "*"}

  /** The tokens the current server handler's default rule looks for. */
  const ServerTokens: set<string> := {"gzip", "deflate"}

  /** The enable rule as a handler calls it: the answer, or what it threw. */
  type Rule = Request -> Result<bool, Error>

  /** Some Accept-Encoding entry is one of `tokens`, compared exactly
      (letter case matters, quality does not). */
  predicate Mentions(request: Request, tokens: set<string>) {
    exists i :: 0 <= i < |request.acceptEncoding| && request.acceptEncoding[i].value in tokens
  }

  /** The default `enableCompression` predicate: off unless the request
      mentions one of `tokens`; then the property decides when present (a
      value that does not parse as a boolean counts as false, a null value
      throws on `ToString()`); otherwise on. */
  function DefaultRule(tokens: set<string>, request: Request): Result<bool, Error> {
    if forall i :: 0 <= i < |request.acceptEncoding| ==> request.acceptEncoding[i].value !in tokens then Ok(false)
    else if EnableProperty in request.properties then
      match request.properties[EnableProperty]
      case None => Err(NullReference)
      case Some(v) => Ok(Text.TryParseBool(v).GetOr(false))
    else Ok(true)
  }

  /** `enableCompression ?? default`: a predicate given to the constructor
      answers as it is. */
  function EnableRule(custom: Option<Request -> bool>, tokens: set<string>): (r: Rule)
    ensures custom.Some? ==> forall request :: r(request) == Ok(custom.value(request))
    ensures custom.None? ==> forall request :: r(request) == DefaultRule(tokens, request)
  {
    match custom
    case Some(f) => (request: Request) => Ok(f(request))
    case None => (request: Request) => DefaultRule(tokens, request)
  }

  /** The default rule allows compression exactly when a token is mentioned
      and the property is absent or reads as true; it throws exactly when a
      token is mentioned and the property is present but null. */
  lemma EnabledByDefaultSpec(tokens: set<string>, request: Request)
    ensures DefaultRule(tokens, request) == Ok(true) <==>
              && Mentions(request, tokens)
              && (EnableProperty in request.properties ==>
                    request.properties[EnableProperty].Some? &&
                    Text.TryParseBool(request.properties[EnableProperty].value) == Some(true))
    ensures DefaultRule(tokens, request).Err? <==>
              Mentions(request, tokens) && EnableProperty in request.properties && request.properties[EnableProperty].None?
    ensures DefaultRule(tokens, request).Err? ==> DefaultRule(tokens, request).error == NullReference
  {
  }

  /** A request property set from a boolean switches compression accordingly. */
  lemma PropertyDecides(tokens: set<string>, request: Request, b: bool)
    requires Mentions(request, tokens)
    ensures DefaultRule(tokens, request.(properties := request.properties[EnableProperty := Some(Text.BoolText(b))])) == Ok(b)
  {
    Text.ParseBoolText(b);
  }

  /** A property value that is not a boolean disables compression. */
  lemma UnparsablePropertyDisables(tokens: set<string>, request: Request)
    requires EnableProperty in request.properties && request.properties[EnableProperty].Some?
    requires Text.TryParseBool(request.properties[EnableProperty].value).None?
    ensures DefaultRule(tokens, request) == Ok(false)
  {
  }

  /** A null property value makes the default rule throw once a token is
      mentioned, and is never read otherwise. */
  lemma NullPropertyThrows(tokens: set<string>, request: Request)
    requires EnableProperty in request.properties && request.properties[EnableProperty].None?
    ensures DefaultRule(tokens, request) == if Mentions(request, tokens) then Err(NullReference) else Ok(false)
  {
  }

  /** The default rules compare tokens exactly: "GZIP" alone does not
      enable compression, although the compressor query would match it. */
  lemma UppercaseTokenNotRecognized(properties: map<string, Option<string>>, content: Option<Content>)
    ensures DefaultRule(ServerTokens, Request([Negotiation.Coding("GZIP", None)], properties, content)) == Ok(false)
    ensures DefaultRule(BaseServerTokens, Request([Negotiation.Coding("GZIP", None)], properties, content)) == Ok(false)
  {
    assert "GZIP" != "gzip";
  }

  /** Only the base server handler's rule takes "*". */
  lemma WildcardRecognizedByBaseOnly(properties: map<string, Option<string>>, content: Option<Content>)
    requires EnableProperty !in properties
    ensures DefaultRule(BaseServerTokens, Request([Negotiation.Coding("*", None)], properties, content)) == Ok(true)
    ensures DefaultRule(ServerTokens, Request([Negotiation.Coding("*", None)], properties, content)) == Ok(false)
  {
    var r := Request([Negotiation.Coding("*", None)], properties, content);
    assert r.acceptEncoding[0].value == "*";
  }
}
