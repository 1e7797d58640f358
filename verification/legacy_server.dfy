/** The legacy library's `ServerCompressionHandler`: decompresses a request
    that carries any Content-Encoding, passes it on, then buffers the
    response (any failure, a missing response included, switches
    compression off) and compresses it with the legacy wrapper when the
    request lists codings, one is negotiated and the length meets the
    threshold. There is no enable rule. */
module LegacyServer {
  import opened Wrappers
  import opened Errors
  import opened Headers
  import opened Codecs
  import opened Contents
  import opened Thresholds
  import opened Messages
  import Negotiation
  import Wrapping
  import Decoding
  import LegacyCompressedContent

  /** The handler's configuration. */
  datatype Handler = Handler(threshold: Int32, compressors: seq<Compressor>)

  /** The constructors: the threshold defaults to 860. */
  function New(compressors: seq<Compressor>, threshold: Int32 := DefaultThreshold): (h: Handler)
    ensures h.threshold == threshold && h.compressors == compressors
  {
    Handler(threshold, compressors)
  }

  /** The request half of `SendAsync`: `DecompressRequest` when the content
      names any encoding, through the legacy operations. */
  function DecompressRequest(h: Handler, request: Request): (r: Result<Request, Error>)
    ensures r.Ok? ==> r.value.acceptEncoding == request.acceptEncoding && r.value.properties == request.properties
    ensures r.Ok? ==> (r.value.content.Some? <==> request.content.Some?)
  {
    if request.content.Some? && Encodings(request.content.value.headers) != [] then
      match Decoding.DecompressBody(h.compressors, request.content.value, true, Some("request"))
      case Err(e) => Err(e)
      case Ok(d) => Ok(request.(content := Some(d)))
    else Ok(request)
  }

  /** `CompressResponse`: the compressor chosen by the query, then the
      threshold step with the legacy wrapper. */
  function CompressResponse(h: Handler, request: Request, c: Content): (r: Result<Content, Error>)
    ensures r.Err? ==> r.error.Wrapped?
  {
    match Negotiation.Negotiate(request.acceptEncoding, h.compressors)
    case None => Ok(c)
    case Some(k) => Wrapping.CompressWith(h.threshold, c, h.compressors[k], true, Some("response"))
  }

  /** The response half of `SendAsync`. */
  function CompressResponseOf(h: Handler, request: Request, response: Option<Response>): (r: Result<Option<Response>, Error>)
    ensures r.Ok? ==> (r.value.Some? <==> response.Some?)
    ensures r.Err? ==> r.error.Wrapped?
  {
    match response
    case None => Ok(None)
    case Some(resp) =>
      if resp.content.None? then Ok(response)
      else match LoadIntoBuffer(resp.content.value)
        case Err(_) => Ok(response)
        case Ok(c) =>
          if request.acceptEncoding == [] then Ok(Some(Response(Some(c))))
          else match CompressResponse(h, request, c)
            case Err(e) => Err(e)
            case Ok(c') => Ok(Some(Response(Some(c'))))
  }

  /** `SendAsync`. */
  function SendAsync(h: Handler, request: Request, inner: Request -> Option<Response>): (r: Result<Option<Response>, Error>)
    ensures DecompressRequest(h, request).Err? ==> r == Err(DecompressRequest(h, request).error)
    ensures DecompressRequest(h, request).Ok? && r.Err? ==> r.error.Wrapped?
    ensures request.content.None? ==> r == CompressResponseOf(h, request, inner(request))
    ensures r.Ok? ==> var d := DecompressRequest(h, request);
              d.Ok? && (r.value.Some? <==> inner(d.value).Some?)
  {
    match DecompressRequest(h, request)
    case Err(e) => Err(e)
    case Ok(request') => CompressResponseOf(h, request', inner(request'))
  }

  // ---------------------------------------------------------------------
  // Properties
  // ---------------------------------------------------------------------

  /** A readable response is buffered and wrapped with the negotiated
      compressor exactly when the buffered length meets the threshold. */
  lemma {:induction false} CompressResponseSpec(h: Handler, request: Request, c: Content, k: nat)
    requires Live(c) && request.acceptEncoding != []
    requires Negotiation.Negotiate(request.acceptEncoding, h.compressors) == Some(k)
    ensures LoadIntoBuffer(c).Ok?
    ensures var r := CompressResponseOf(h, request, Some(Response(Some(c))));
            var b := LoadIntoBuffer(c).value;
            && r.Ok?
            && (Wrapping.Wraps(r.value.value.content.value, b, h.compressors[k], true) <==> Meets(h.threshold, Wrapping.Gauge(h.threshold, b)))
            && Payload(r.value.value.content.value) ==
                 if Meets(h.threshold, Wrapping.Gauge(h.threshold, b)) then h.compressors[k].deflate(Payload(c)) else Payload(c)
  {
    LoadIntoBufferLive(c);
    var b := LoadIntoBuffer(c).value;
    Wrapping.CompressWithLive(h.threshold, b, h.compressors[k], true, Some("response"));
  }

  /** With a positive threshold the legacy wrapper copies the Content-Length
      the threshold step stored: until it is serialized, the compressed
      response advertises the uncompressed size. */
  lemma {:induction false} AdvertisesOriginalLength(h: Handler, request: Request, c: Content, k: nat)
    requires Live(c) && c.body.Raw? && DistinctNames(c.headers)
    requires !Has(c.headers, ContentLength) && !c.lengthSet
    requires h.threshold > 0 && |Payload(c)| >= h.threshold
    requires request.acceptEncoding != []
    requires Negotiation.Negotiate(request.acceptEncoding, h.compressors) == Some(k)
    ensures var r := CompressResponseOf(h, request, Some(Response(Some(c))));
            && r.Ok? && r.value.value.content.value.body.LegacyCompressed?
            && ReadContentLength(r.value.value.content.value).Ok?
            && ReadContentLength(r.value.value.content.value).value.0 == Some(|Payload(c)|)
  {
    LoadIntoBufferLive(c);
    var b := LoadIntoBuffer(c).value;
    LengthAfterBuffering(b);
    var b' := ReadContentLength(b).value.1;
    SetDistinct(b.headers, ContentLength, Some(Num(|Payload(c)|)));
    LegacyCompressedContent.StaleLengthBeforeSerialization(b', h.compressors[k], |Payload(c)|);
  }

  /** A missing response, or one whose content cannot be buffered, passes
      uncompressed. */
  lemma {:induction false} UnreadableResponsePasses(h: Handler, request: Request, response: Option<Response>)
    requires response.Some? && response.value.content.Some? ==> response.value.content.value.disposed
    ensures CompressResponseOf(h, request, response) == Ok(response)
  {
  }

  /** Without Accept-Encoding entries the response is only buffered. */
  lemma {:induction false} NoAcceptOnlyBuffers(h: Handler, request: Request, c: Content)
    requires request.acceptEncoding == [] && Live(c)
    ensures LoadIntoBuffer(c).Ok?
    ensures CompressResponseOf(h, request, Some(Response(Some(c)))) == Ok(Some(Response(Some(LoadIntoBuffer(c).value))))
  {
    LoadIntoBufferLive(c);
  }

  /** A readable request body in an encoding a compressor has is decoded
      through the legacy operations; a rejected one fails with a message
      naming the compressor. */
  lemma {:induction false} RequestDecompressed(h: Handler, request: Request, c: Content)
    requires request.content == Some(c) && Live(c) && Encodings(c.headers) != []
    requires Decoding.DecoderFor(c, h.compressors).Some?
    ensures var comp := h.compressors[Decoding.DecoderFor(c, h.compressors).value];
            match comp.inflate(Payload(c))
            case Some(d) =>
              DecompressRequest(h, request).Ok? && Payload(DecompressRequest(h, request).value.content.value) == d
            case None =>
              DecompressRequest(h, request) == Err(Wrapped(FailureMessage("decompress", "request", comp.typeName), InvalidData))
  {
  }
}
