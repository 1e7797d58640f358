/** The current library's `ServerCompressionHandler`: decompresses a
    request that carries any Content-Encoding, passes it on, and when the
    enable rule allows it buffers the response content and compresses it
    with the negotiated compressor if its length meets the threshold. It
    neither recognises "*" nor checks whether the response is already
    encoded, and it does not guard against a missing response. */
module Server {
  import opened Wrappers
  import opened Errors
  import opened Headers
  import opened Codecs
  import opened Contents
  import opened Thresholds
  import opened Messages
  import Negotiation
  import Wrapping
  import Decoding
  import CompressedContent

  /** The handler's configuration. */
  datatype Handler = Handler(threshold: Int32, enable: Rule, compressors: seq<Compressor>)

  /** The constructors: the threshold defaults to 860 and the enable rule
      to the default one over "gzip" and "deflate". */
  function New(compressors: seq<Compressor>, threshold: Int32 := DefaultThreshold, enable: Option<Request -> bool> := None): (h: Handler)
    ensures h.threshold == threshold && h.compressors == compressors
    ensures enable.None? ==> forall r :: h.enable(r) == DefaultRule(ServerTokens, r)
    ensures enable.Some? ==> forall r :: h.enable(r) == Ok(enable.value(r))
  {
    Handler(threshold, EnableRule(enable, ServerTokens), compressors)
  }

  /** The request half of `SendAsync`: `DecompressRequest` when the content
      names any encoding. */
  function DecompressRequest(h: Handler, request: Request): (r: Result<Request, Error>)
    ensures r.Ok? ==> r.value.acceptEncoding == request.acceptEncoding && r.value.properties == request.properties
    ensures r.Ok? ==> (r.value.content.Some? <==> request.content.Some?)
  {
    if request.content.Some? && Encodings(request.content.value.headers) != [] then
      match Decoding.DecompressBody(h.compressors, request.content.value, false, Some("request"))
      case Err(e) => Err(e)
      case Ok(d) => Ok(request.(content := Some(d)))
    else Ok(request)
  }

  /** `CompressResponse`: the compressor chosen by the query, then the
      threshold step. */
  function CompressResponse(h: Handler, request: Request, c: Content): (r: Result<Content, Error>)
    ensures r.Err? ==> r.error.Wrapped?
  {
    match Negotiation.Negotiate(request.acceptEncoding, h.compressors)
    case None => Ok(c)
    case Some(k) => Wrapping.CompressWith(h.threshold, c, h.compressors[k], false, Some("response"))
  }

  /** The response half of `SendAsync`. The enable rule runs first, and
      what it throws escapes; a missing response is then dereferenced when
      the rule said yes. */
  function CompressResponseOf(h: Handler, request: Request, response: Option<Response>): (r: Result<Option<Response>, Error>)
    ensures h.enable(request).Err? ==> r == Err(h.enable(request).error)
    ensures h.enable(request) == Ok(false) ==> r == Ok(response)
    ensures r.Ok? ==> (r.value.Some? <==> response.Some?)
  {
    match h.enable(request)
    case Err(e) => Err(e)
    case Ok(enabled) =>
      if !enabled then Ok(response)
      else match response
        case None => Err(NullReference)
        case Some(resp) =>
          if resp.content.None? then Ok(response)
          else match LoadIntoBuffer(resp.content.value)
            case Err(e) => Err(e)
            case Ok(c) =>
              match CompressResponse(h, request, c)
              case Err(e) => Err(e)
              case Ok(c') => Ok(Some(Response(Some(c'))))
  }

  /** `SendAsync`. */
  function SendAsync(h: Handler, request: Request, inner: Request -> Option<Response>): (r: Result<Option<Response>, Error>)
    ensures DecompressRequest(h, request).Err? ==> r == Err(DecompressRequest(h, request).error)
    ensures request.content.None? ==> r == CompressResponseOf(h, request, inner(request))
    ensures var d := DecompressRequest(h, request);
              d.Ok? && h.enable(d.value) == Ok(false) ==> r == Ok(inner(d.value))
    ensures r.Ok? ==> var d := DecompressRequest(h, request);
              d.Ok? && (r.value.Some? <==> inner(d.value).Some?)
  {
    match DecompressRequest(h, request)
    case Err(e) => Err(e)
    case Ok(request') => CompressResponseOf(h, request', inner(request'))
  }

  // ---------------------------------------------------------------------
  // Properties
  // ---------------------------------------------------------------------

  /** The compression decision for a readable response: the content is
      buffered, the step cannot fail, and the response is wrapped with
      compressor k exactly when the query chose k and the buffered content's
      length meets the threshold; it then stands for the encoded bytes. */
  lemma {:induction false} CompressResponseSpec(h: Handler, request: Request, c: Content, k: nat)
    requires h.enable(request) == Ok(true) && Live(c)
    requires Negotiation.Negotiate(request.acceptEncoding, h.compressors) == Some(k)
    ensures LoadIntoBuffer(c).Ok?
    ensures var r := CompressResponseOf(h, request, Some(Response(Some(c))));
            var b := LoadIntoBuffer(c).value;
            && r.Ok?
            && (Wrapping.Wraps(r.value.value.content.value, b, h.compressors[k], false) <==> Meets(h.threshold, Wrapping.Gauge(h.threshold, b)))
            && Payload(r.value.value.content.value) ==
                 if Meets(h.threshold, Wrapping.Gauge(h.threshold, b)) then h.compressors[k].deflate(Payload(c)) else Payload(c)
  {
    LoadIntoBufferLive(c);
    var b := LoadIntoBuffer(c).value;
    Wrapping.CompressWithLive(h.threshold, b, h.compressors[k], false, Some("response"));
  }

  /** Buffering makes every readable plain response without a stored
      length gauged by its own size: it is compressed exactly when that size
      meets the threshold. */
  lemma {:induction false} BufferedLengthDecides(h: Handler, request: Request, c: Content, k: nat)
    requires h.enable(request) == Ok(true) && Live(c) && c.body.Raw?
    requires !Has(c.headers, ContentLength) && !c.lengthSet
    requires Negotiation.Negotiate(request.acceptEncoding, h.compressors) == Some(k)
    ensures LoadIntoBuffer(c).Ok?
    ensures var r := CompressResponseOf(h, request, Some(Response(Some(c))));
            && r.Ok?
            && (Wrapping.Wraps(r.value.value.content.value, LoadIntoBuffer(c).value, h.compressors[k], false) <==>
                  Meets(h.threshold, Some(|Payload(c)|)))
  {
    LoadIntoBufferLive(c);
    var b := LoadIntoBuffer(c).value;
    CompressResponseSpec(h, request, c, k);
    if h.threshold > 0 {
      assert ReadContentLength(b).value.0 == Some(|Payload(c)|);
    }
  }

  /** Nothing stops a second compression: a gzip response negotiated to
      gzip again, with threshold 0, comes out marked "gzip" twice. */
  lemma {:induction false} CompressesTwice(h: Handler, request: Request, c: Content, k: nat)
    requires h.enable(request) == Ok(true) && h.threshold == 0
    requires Live(c) && c.body.Raw? && WellFormed(c.headers) && Encodings(c.headers) == ["gzip"]
    requires Negotiation.Negotiate(request.acceptEncoding, h.compressors) == Some(k)
    requires h.compressors[k].encodingType == "gzip"
    ensures CompressResponseOf(h, request, Some(Response(Some(c)))).Ok?
    ensures Encodings(CompressResponseOf(h, request, Some(Response(Some(c)))).value.value.content.value.headers) == ["gzip", "gzip"]
  {
    LoadIntoBufferLive(c);
    var b := LoadIntoBuffer(c).value;
    CompressedContent.WrapperEncodings(b, h.compressors[k]);
  }

  /** A missing response passes only when the enable rule says no. */
  lemma {:induction false} MissingResponse(h: Handler, request: Request)
    ensures h.enable(request).Ok? ==>
              CompressResponseOf(h, request, None) == if h.enable(request).value then Err(NullReference) else Ok(None)
  {
  }

  /** With the default rule, a request that mentions "gzip" or "deflate"
      and carries a null "compression:Enable" value fails with a null
      reference whatever the inner handler answered. */
  lemma {:induction false} NullPropertyFails(compressors: seq<Compressor>, threshold: Int32, request: Request, response: Option<Response>)
    requires Mentions(request, ServerTokens)
    requires EnableProperty in request.properties && request.properties[EnableProperty].None?
    ensures CompressResponseOf(New(compressors, threshold), request, response) == Err(NullReference)
  {
    NullPropertyThrows(ServerTokens, request);
  }

  /** Disposed response content is not caught: buffering fails. */
  lemma {:induction false} DisposedResponseFails(h: Handler, request: Request, c: Content)
    requires h.enable(request) == Ok(true) && c.disposed
    ensures CompressResponseOf(h, request, Some(Response(Some(c)))) == Err(ObjectDisposed)
  {
  }

  /** Any encoding opens the request gate and the lookup ignores case, so
      a body marked "GZIP" is decoded with the gzip compressor. */
  lemma {:induction false} RequestDecompressed(h: Handler, request: Request, c: Content)
    requires request.content == Some(c) && Live(c) && Encodings(c.headers) != []
    requires Decoding.DecoderFor(c, h.compressors).Some?
    ensures var comp := h.compressors[Decoding.DecoderFor(c, h.compressors).value];
            match comp.inflate(Payload(c))
            case Some(d) =>
              DecompressRequest(h, request).Ok? && Payload(DecompressRequest(h, request).value.content.value) == d
            case None =>
              DecompressRequest(h, request) == Err(Wrapped(FailureMessage("decompress", "request", comp.typeName), InvalidData))
  {
  }

  /** A request in an encoding no compressor has reaches the inner handler
      as it came. */
  lemma {:induction false} UnknownEncodingPasses(h: Handler, request: Request)
    requires request.content.Some? ==> Decoding.DecoderFor(request.content.value, h.compressors).None?
    ensures DecompressRequest(h, request) == Ok(request)
  {
  }
}
