/** The legacy library's `CompressionHandler`: after the inner handler
    answers, wraps the response content with the legacy wrapper when the
    request lists codings and one is negotiated. There is no threshold, no
    buffering and no enable rule. */
module LegacyCompression {
  import opened Wrappers
  import opened Errors
  import opened Codecs
  import opened Contents
  import opened Messages
  import Negotiation
  import Wrapping

  /** `SendAsync`, given what the inner handler answered. The request is
      checked first, so a missing response is dereferenced only when the
      request lists codings. */
  function CompressResponse(compressors: seq<Compressor>, request: Request, response: Option<Response>): (r: Result<Option<Response>, Error>)
    ensures request.acceptEncoding == [] ==> r == Ok(response)
    ensures r.Ok? ==> (r.value.Some? <==> response.Some?)
  {
    if request.acceptEncoding == [] then Ok(response)
    else match response
      case None => Err(NullReference)
      case Some(resp) =>
        if resp.content.None? then Ok(response)
        else match Negotiation.Negotiate(request.acceptEncoding, compressors)
          case None => Ok(response)
          case Some(k) => Ok(Some(Response(Some(Wrapping.WrapWith(resp.content.value, compressors[k], true)))))
  }

  /** `SendAsync`. */
  function SendAsync(compressors: seq<Compressor>, request: Request, inner: Request -> Option<Response>): (r: Result<Option<Response>, Error>)
    ensures request.acceptEncoding == [] ==> r == Ok(inner(request))
    ensures r.Ok? ==> (r.value.Some? <==> inner(request).Some?)
  {
    CompressResponse(compressors, request, inner(request))
  }

  /** Any response content is wrapped with compressor k exactly when the
      query chose k, whatever its size or state; otherwise it is kept. */
  lemma {:induction false} WrapsNegotiated(compressors: seq<Compressor>, request: Request, c: Content, k: nat)
    requires request.acceptEncoding != [] && k < |compressors|
    ensures var r := CompressResponse(compressors, request, Some(Response(Some(c))));
            && r.Ok?
            && (Negotiation.Negotiate(request.acceptEncoding, compressors) == Some(k) ==>
                  Wrapping.Wraps(r.value.value.content.value, c, compressors[k], true)
                  && Payload(r.value.value.content.value) == compressors[k].deflate(Payload(c)))
            && (Negotiation.Negotiate(request.acceptEncoding, compressors).None? ==> r.value.value.content == Some(c))
  {
  }

  /** A missing response fails exactly when the request lists codings. */
  lemma {:induction false} MissingResponse(compressors: seq<Compressor>, request: Request)
    ensures CompressResponse(compressors, request, None) ==
              if request.acceptEncoding == [] then Ok(None) else Err(NullReference)
  {
  }

  /** Only entries that name a registered compressor at a positive quality
      lead to compression. */
  lemma {:induction false} CompressesOnlyAcceptable(compressors: seq<Compressor>, request: Request, c: Content)
    requires request.acceptEncoding != []
    requires CompressResponse(compressors, request, Some(Response(Some(c)))).Ok?
    requires CompressResponse(compressors, request, Some(Response(Some(c)))).value.value.content != Some(c)
    ensures exists i, k :: Negotiation.Chosen(request.acceptEncoding, compressors, i, k)
  {
    var n := Negotiation.Negotiate(request.acceptEncoding, compressors);
    assert n.Some?;
    Negotiation.NegotiateSpec(request.acceptEncoding, compressors, n.value);
  }
}
