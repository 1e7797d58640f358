/** The legacy library's `ClientCompressionHandler`: compresses the request
    body with the legacy wrapper when the request lists codings and one is
    negotiated (no buffering; a threshold that was never set is 0, so
    everything is compressed), passes it on, then decompresses the response
    when its content names an encoding a compressor has. Failures are not
    wrapped, and a missing response is dereferenced. */
module LegacyClient {
  import opened Wrappers
  import opened Errors
  import opened Headers
  import opened Codecs
  import opened Contents
  import opened Thresholds
  import opened Messages
  import Negotiation
  import Wrapping
  import Decoding

  /** The handler's configuration. */
  datatype Handler = Handler(threshold: Int32, compressors: seq<Compressor>)

  /** The constructors: without a threshold the field keeps its default 0. */
  function New(compressors: seq<Compressor>, threshold: Int32 := UnsetThreshold): (h: Handler)
    ensures h.threshold == threshold && h.compressors == compressors
  {
    Handler(threshold, compressors)
  }

  /** The request half of `SendAsync` (`CompressRequest`). */
  function CompressRequest(h: Handler, request: Request): (r: Result<Request, Error>)
    ensures r.Ok? ==> r.value.acceptEncoding == request.acceptEncoding && r.value.properties == request.properties
    ensures r.Ok? ==> (r.value.content.Some? <==> request.content.Some?)
    ensures request.content.None? || request.acceptEncoding == [] ==> r == Ok(request)
  {
    if request.content.Some? && request.acceptEncoding != [] then
      match Negotiation.Negotiate(request.acceptEncoding, h.compressors)
      case None => Ok(request)
      case Some(k) =>
        match Wrapping.CompressWith(h.threshold, request.content.value, h.compressors[k], true, None)
        case Err(e) => Err(e)
        case Ok(c) => Ok(request.(content := Some(c)))
    else Ok(request)
  }

  /** The response half of `SendAsync` (`DecompressResponse`). */
  function DecompressResponse(h: Handler, response: Option<Response>): (r: Result<Option<Response>, Error>)
    ensures response.None? ==> r == Err(NullReference)
    ensures r.Ok? ==> r.value.Some?
  {
    match response
    case None => Err(NullReference)
    case Some(resp) =>
      if resp.content.None? || Encodings(resp.content.value.headers) == [] then Ok(response)
      else match Decoding.DecompressBody(h.compressors, resp.content.value, true, None)
        case Err(e) => Err(e)
        case Ok(d) => Ok(Some(Response(Some(d))))
  }

  /** `SendAsync`. */
  function SendAsync(h: Handler, request: Request, inner: Request -> Option<Response>): (r: Result<Option<Response>, Error>)
    ensures CompressRequest(h, request).Err? ==> r == Err(CompressRequest(h, request).error)
    ensures request.content.None? || request.acceptEncoding == [] ==> r == DecompressResponse(h, inner(request))
    ensures var d := CompressRequest(h, request);
              d.Ok? && inner(d.value).None? ==> r == Err(NullReference)
    ensures r.Ok? ==> r.value.Some?
  {
    match CompressRequest(h, request)
    case Err(e) => Err(e)
    case Ok(request') => DecompressResponse(h, inner(request'))
  }

  // ---------------------------------------------------------------------
  // Properties
  // ---------------------------------------------------------------------

  /** With the default threshold every request body with a negotiated
      compressor is wrapped, whatever its size, and stands for the encoded
      bytes. */
  lemma {:induction false} DefaultCompressesEverything(compressors: seq<Compressor>, request: Request, c: Content, k: nat)
    requires request.content == Some(c) && request.acceptEncoding != []
    requires Negotiation.Negotiate(request.acceptEncoding, compressors) == Some(k)
    ensures var r := CompressRequest(New(compressors), request);
            && r.Ok?
            && Wrapping.Wraps(r.value.content.value, c, compressors[k], true)
            && Payload(r.value.content.value) == compressors[k].deflate(Payload(c))
  {
  }

  /** Without buffering, a positive threshold only compresses a body whose
      length the getter can tell: a non-seekable stream without a stored
      length is never compressed. */
  lemma {:induction false} UnknownLengthNotCompressed(h: Handler, request: Request, c: Content, k: nat)
    requires h.threshold > 0
    requires request.content == Some(c) && request.acceptEncoding != []
    requires !c.disposed && c.buffer.None? && c.body.Raw? && c.body.kind == StreamContent(false)
    requires !Has(c.headers, ContentLength)
    requires Negotiation.Negotiate(request.acceptEncoding, h.compressors) == Some(k)
    ensures CompressRequest(h, request).Ok?
    ensures CompressRequest(h, request).value.content.value.body == c.body
  {
    Wrapping.CompressWithLive(h.threshold, c, h.compressors[k], true, None);
  }

  /** A disposed request body without a stored length fails on the length
      getter, and the failure is not wrapped. */
  lemma {:induction false} DisposedRequestFails(h: Handler, request: Request, c: Content, k: nat)
    requires h.threshold > 0
    requires request.content == Some(c) && request.acceptEncoding != []
    requires c.disposed && !Has(c.headers, ContentLength) && !c.lengthSet
    requires Negotiation.Negotiate(request.acceptEncoding, h.compressors) == Some(k)
    ensures CompressRequest(h, request) == Err(ObjectDisposed)
  {
  }

  /** A readable response in an encoding a compressor has is decoded; the
      codec's failure surfaces unwrapped. */
  lemma {:induction false} ResponseDecompressed(h: Handler, c: Content)
    requires Live(c) && Encodings(c.headers) != []
    requires Decoding.DecoderFor(c, h.compressors).Some?
    ensures var comp := h.compressors[Decoding.DecoderFor(c, h.compressors).value];
            var r := DecompressResponse(h, Some(Response(Some(c))));
            match comp.inflate(Payload(c))
            case Some(d) => r.Ok? && Payload(r.value.value.content.value) == d
            case None => r == Err(InvalidData)
  {
  }
}
