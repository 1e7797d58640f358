/** `BaseServerCompressionHandler`: decompresses a request whose
    Content-Encoding names "gzip" or "deflate", passes it on, and compresses
    the response when the enable rule allows it, the client accepts a
    registered coding (or "*"), the response is not already in that coding,
    and its length meets the threshold. A response whose content was
    already disposed is passed on uncompressed. */
module BaseServer {
  import opened Wrappers
  import opened Errors
  import opened Headers
  import opened Codecs
  import opened Contents
  import opened Thresholds
  import opened Messages
  import Negotiation
  import Text
  import Wrapping
  import Decoding

  /** The handler's configuration. */
  datatype Handler = Handler(threshold: Int32, enable: Rule, compressors: seq<Compressor>)

  /** The constructors: the threshold defaults to 860 and the enable rule
      to the default one, which also takes "*". */
  function New(compressors: seq<Compressor>, threshold: Int32 := DefaultThreshold, enable: Option<Request -> bool> := None): (h: Handler)
    ensures h.threshold == threshold && h.compressors == compressors
    ensures enable.None? ==> forall r :: h.enable(r) == DefaultRule(BaseServerTokens, r)
    ensures enable.Some? ==> forall r :: h.enable(r) == Ok(enable.value(r))
  {
    Handler(threshold, EnableRule(enable, BaseServerTokens), compressors)
  }

  /** Some Content-Encoding token is exactly "gzip" or "deflate". */
  predicate NamesKnownCoding(c: Content) {
    exists i :: 0 <= i < |Encodings(c.headers)| && (Encodings(c.headers)[i] == "gzip" || Encodings(c.headers)[i] == "deflate")
  }

  /** `ContentEncoding.Contains(token)`, which ignores letter case. */
  predicate EncodedWith(c: Content, token: string) {
    exists i :: 0 <= i < |Encodings(c.headers)| && Text.EqualsIgnoreCase(Encodings(c.headers)[i], token)
  }

  /** `HandleDecompression`. */
  function HandleDecompression(h: Handler, request: Request): (r: Result<Request, Error>)
    ensures r.Ok? ==> r.value.acceptEncoding == request.acceptEncoding && r.value.properties == request.properties
    ensures r.Ok? ==> (r.value.content.Some? <==> request.content.Some?)
  {
    if request.content.Some? && NamesKnownCoding(request.content.value) then
      match Decoding.DecompressBody(h.compressors, request.content.value, false, Some("request"))
      case Err(e) => Err(e)
      case Ok(d) => Ok(request.(content := Some(d)))
    else Ok(request)
  }

  /** `ContentLengthKnown`: string and byte-array contents. */
  predicate ContentLengthKnown(response: Option<Response>) {
    && response.Some? && response.value.content.Some?
    && response.value.content.value.body.Raw?
    && !response.value.content.value.body.kind.StreamContent?
  }

  /** `CompressResponse`: the compressor chosen by the wildcard rule or the
      query; nothing when none is, or the response is already in its
      coding; otherwise the threshold step, whose failures are rethrown
      with a message naming the compressor type. */
  function CompressResponse(h: Handler, request: Request, c: Content): (r: Result<Content, Error>)
    ensures r.Err? ==> r.error.Wrapped?
  {
    match Negotiation.NegotiateWithWildcard(request.acceptEncoding, h.compressors)
    case None => Ok(c)
    case Some(k) =>
      var comp := h.compressors[k];
      if EncodedWith(c, comp.encodingType) then Ok(c)
      else Wrapping.CompressWith(h.threshold, c, comp, false, Some("response"))
  }

  /** `HandleCompression`: the enable rule runs outside the `try`, so what
      it throws escapes; then buffering (unless the length is known) and
      compressing, with a disposed content caught and the response passed
      on unchanged. */
  function HandleCompression(h: Handler, request: Request, response: Option<Response>): (r: Result<Option<Response>, Error>)
    ensures response.None? ==> r == Ok(None)
    ensures response.Some? && h.enable(request).Err? ==> r == Err(h.enable(request).error)
    ensures r.Ok? ==> (r.value.Some? <==> response.Some?)
    ensures r.Err? && h.enable(request).Ok? ==> r.error != ObjectDisposed
  {
    match response
    case None => Ok(None)
    case Some(resp) =>
      match h.enable(request)
      case Err(e) => Err(e)
      case Ok(enabled) =>
        if !(enabled && resp.content.Some?) then Ok(response)
        else
          var attempt :=
            (var buffered := if ContentLengthKnown(response) then Ok(resp.content.value) else LoadIntoBuffer(resp.content.value);
             match buffered
             case Err(e) => Err(e)
             case Ok(c) => CompressResponse(h, request, c));
          match attempt
          case Err(e) => if e == ObjectDisposed then Ok(response) else Err(e)
          case Ok(c) => Ok(Some(Response(Some(c))))
  }

  /** `SendAsync`: decompress, hand over to the inner handler, compress. */
  function SendAsync(h: Handler, request: Request, inner: Request -> Option<Response>): (r: Result<Option<Response>, Error>)
    ensures HandleDecompression(h, request).Err? ==> r == Err(HandleDecompression(h, request).error)
    ensures request.content.None? ==> r == HandleCompression(h, request, inner(request))
    ensures r.Ok? ==> var d := HandleDecompression(h, request);
              d.Ok? && (r.value.Some? <==> inner(d.value).Some?)
  {
    match HandleDecompression(h, request)
    case Err(e) => Err(e)
    case Ok(request') => HandleCompression(h, request', inner(request'))
  }

  // ---------------------------------------------------------------------
  // Properties
  // ---------------------------------------------------------------------

  /** The compression decision for readable content: it never fails, and
      the response is wrapped with compressor k exactly when k is the
      negotiated compressor, the content is not already in its coding, and
      the gauged length meets the threshold; otherwise the content object
      is kept. */
  lemma CompressResponseSpec(h: Handler, request: Request, c: Content)
    requires !c.disposed
    ensures CompressResponse(h, request, c).Ok?
    ensures forall k :: 0 <= k < |h.compressors| ==>
              (Wrapping.Wraps(CompressResponse(h, request, c).value, c, h.compressors[k], false) &&
               Negotiation.NegotiateWithWildcard(request.acceptEncoding, h.compressors) == Some(k)
               <==>
               && Negotiation.NegotiateWithWildcard(request.acceptEncoding, h.compressors) == Some(k)
               && !EncodedWith(c, h.compressors[k].encodingType)
               && Meets(h.threshold, Wrapping.Gauge(h.threshold, c)))
    ensures Negotiation.NegotiateWithWildcard(request.acceptEncoding, h.compressors).None? ==>
              CompressResponse(h, request, c) == Ok(c)
    ensures (Negotiation.NegotiateWithWildcard(request.acceptEncoding, h.compressors).None? ||
             EncodedWith(c, h.compressors[Negotiation.NegotiateWithWildcard(request.acceptEncoding, h.compressors).value].encodingType) ||
             !Meets(h.threshold, Wrapping.Gauge(h.threshold, c))) ==>
              Wrapping.SameState(CompressResponse(h, request, c).value, c)
  {
    match Negotiation.NegotiateWithWildcard(request.acceptEncoding, h.compressors) {
      case None =>
      case Some(k) =>
        Wrapping.CompressWithLive(h.threshold, c, h.compressors[k], false, Some("response"));
    }
  }

  /** A response already in the negotiated coding is never compressed again. */
  lemma NoDoubleCompression(h: Handler, request: Request, c: Content, k: nat)
    requires Negotiation.NegotiateWithWildcard(request.acceptEncoding, h.compressors) == Some(k)
    requires EncodedWith(c, h.compressors[k].encodingType)
    ensures CompressResponse(h, request, c) == Ok(c)
  {
  }

  /** With a "*" entry the first compressor is used, at any quality; without
      one, the wrapper uses the compressor of the preferred acceptable pair. */
  lemma CompressorChoice(h: Handler, request: Request, c: Content, k: nat)
    requires CompressResponse(h, request, c).Ok?
    requires k < |h.compressors| && Wrapping.Wraps(CompressResponse(h, request, c).value, c, h.compressors[k], false)
    requires forall j :: 0 <= j < |h.compressors| && j != k ==> h.compressors[j] != h.compressors[k]
    ensures Negotiation.HasWildcard(request.acceptEncoding) ==> k == 0
    ensures !Negotiation.HasWildcard(request.acceptEncoding) ==>
              exists i :: Negotiation.Chosen(request.acceptEncoding, h.compressors, i, k)
  {
    var n := Negotiation.NegotiateWithWildcard(request.acceptEncoding, h.compressors);
    assert n.Some?;
    assert n.value == k;
    if !Negotiation.HasWildcard(request.acceptEncoding) {
      Negotiation.NegotiateSpec(request.acceptEncoding, h.compressors, k);
    }
  }

  /** A response with a disposed stream content is passed on unchanged: the
      buffering failure is caught. */
  lemma DisposedStreamResponsePasses(h: Handler, request: Request, c: Content)
    requires h.enable(request) == Ok(true)
    requires c.disposed && c.body.Raw? && c.body.kind.StreamContent?
    ensures HandleCompression(h, request, Some(Response(Some(c)))) == Ok(Some(Response(Some(c))))
  {
  }

  /** A disposed string content skips buffering, and with a positive
      threshold the length getter's failure is rethrown wrapped, so it is
      not caught: the asymmetry with stream contents. */
  lemma DisposedStringResponseFails(h: Handler, request: Request, c: Content, k: nat)
    requires h.enable(request) == Ok(true) && h.threshold > 0
    requires c.disposed && c.body.Raw? && c.body.kind == StringContent
    requires !Has(c.headers, ContentLength) && !c.lengthSet
    requires Negotiation.NegotiateWithWildcard(request.acceptEncoding, h.compressors) == Some(k)
    requires !EncodedWith(c, h.compressors[k].encodingType)
    ensures HandleCompression(h, request, Some(Response(Some(c)))) ==
              Err(Wrapped(FailureMessage("compress", "response", h.compressors[k].typeName), ObjectDisposed))
  {
  }

  /** A stream response of n readable bytes without a stored length is
      buffered first, so the threshold compares n: the response is
      compressed exactly when n meets it. */
  lemma {:induction false} StreamResponseGauged(h: Handler, request: Request, c: Content, k: nat)
    requires h.enable(request) == Ok(true)
    requires Live(c) && c.body.Raw? && c.body.kind.StreamContent? && c.buffer.None?
    requires !Has(c.headers, ContentLength) && !c.lengthSet
    requires Negotiation.NegotiateWithWildcard(request.acceptEncoding, h.compressors) == Some(k)
    requires !EncodedWith(c, h.compressors[k].encodingType)
    ensures HandleCompression(h, request, Some(Response(Some(c)))).Ok?
    ensures var r := HandleCompression(h, request, Some(Response(Some(c)))).value.value.content.value;
            Meets(h.threshold, Some(|c.body.data|)) <==> Wrapping.Wraps(r, LoadIntoBuffer(c).value, h.compressors[k], false)
  {
    LoadIntoBufferLive(c);
    var b := LoadIntoBuffer(c).value;
    assert b.buffer == Some(c.body.data) && b.headers == c.headers && !b.disposed;
    CompressResponseSpec(h, request, b);
    if h.threshold > 0 {
      assert Wrapping.Gauge(h.threshold, b) == Some(|c.body.data|);
    }
  }

  /** Nothing happens to a response the enable rule refuses, or to a
      missing response. */
  lemma DisabledPasses(h: Handler, request: Request, response: Option<Response>)
    requires response.Some? ==> h.enable(request).Ok? && (!h.enable(request).value || response.value.content.None?)
    ensures HandleCompression(h, request, response) == Ok(response)
  {
  }

  /** With the default rule, a request that mentions a token and carries a
      null "compression:Enable" value makes every response fail with a null
      reference, even one without content: the rule is asked before the
      content is tested. */
  lemma NullPropertyFails(compressors: seq<Compressor>, threshold: Int32, request: Request, response: Response)
    requires Mentions(request, BaseServerTokens)
    requires EnableProperty in request.properties && request.properties[EnableProperty].None?
    ensures HandleCompression(New(compressors, threshold), request, Some(response)) == Err(NullReference)
  {
    NullPropertyThrows(BaseServerTokens, request);
  }

  /** The decompression gate compares exactly: a request encoded "GZIP" is
      passed on as it is, although the lookup would find the gzip
      compressor. */
  lemma UppercaseRequestNotDecompressed(h: Handler, request: Request, c: Content)
    requires request.content == Some(c) && Encodings(c.headers) == ["GZIP"]
    ensures HandleDecompression(h, request) == Ok(request)
  {
    assert !NamesKnownCoding(c) by {
      assert "GZIP" != "gzip" && "GZIP" != "deflate";
    }
  }

  /** A readable gzip or deflate request body the registered codec decodes
      reaches the inner handler decoded; one it cannot decode fails with a
      message naming the compressor. */
  lemma RequestDecompressed(h: Handler, request: Request, c: Content, inner: Request -> Option<Response>)
    requires request.content == Some(c) && Live(c) && NamesKnownCoding(c)
    requires Decoding.DecoderFor(c, h.compressors).Some?
    ensures var comp := h.compressors[Decoding.DecoderFor(c, h.compressors).value];
            match comp.inflate(Payload(c))
            case Some(d) =>
              && HandleDecompression(h, request).Ok?
              && Payload(HandleDecompression(h, request).value.content.value) == d
              && SendAsync(h, request, inner) == HandleCompression(h, HandleDecompression(h, request).value, inner(HandleDecompression(h, request).value))
            case None =>
              SendAsync(h, request, inner) == Err(Wrapped(FailureMessage("decompress", "request", comp.typeName), InvalidData))
  {
  }
}
