/** The current library's `ClientCompressionHandler`: compresses the request
    body with the negotiated compressor when the request lists acceptable
    codings (buffering it first if its length is unknown, and applying the
    threshold), passes it on, then buffers the response and decompresses it
    when it names an encoding a compressor has. Buffering failures on the
    response, a missing response included, are swallowed. */
module Client {
  import opened Wrappers
  import opened Errors
  import opened Headers
  import opened Codecs
  import opened Contents
  import opened Thresholds
  import opened Messages
  import Negotiation
  import Wrapping
  import Decoding

  /** The handler's configuration. */
  datatype Handler = Handler(threshold: Int32, compressors: seq<Compressor>)

  /** The constructors: the threshold defaults to 860. */
  function New(compressors: seq<Compressor>, threshold: Int32 := DefaultThreshold): (h: Handler)
    ensures h.threshold == threshold && h.compressors == compressors
  {
    Handler(threshold, compressors)
  }

  /** `CompressRequest` on the request's content: the compressor chosen by
      the query; the Content-Length getter, buffering when it reports null;
      then the threshold step. Getter and buffering failures propagate as
      they are; a failure of the threshold step is rethrown wrapped. */
  function CompressContent(h: Handler, accept: seq<Negotiation.Coding>, c: Content): (r: Result<Content, Error>)
    ensures Negotiation.Negotiate(accept, h.compressors).None? ==> r == Ok(c)
    ensures Negotiation.Negotiate(accept, h.compressors).Some? && ReadContentLength(c).Err? ==> r == Err(ReadContentLength(c).error)
  {
    match Negotiation.Negotiate(accept, h.compressors)
    case None => Ok(c)
    case Some(k) =>
      match ReadContentLength(c)
      case Err(e) => Err(e)
      case Ok((length, c1)) =>
        var buffered := if length.None? then LoadIntoBuffer(c1) else Ok(c1);
        match buffered
        case Err(e) => Err(e)
        case Ok(c2) => Wrapping.CompressWith(h.threshold, c2, h.compressors[k], false, Some("request"))
  }

  /** The request half of `SendAsync`. */
  function CompressRequest(h: Handler, request: Request): (r: Result<Request, Error>)
    ensures r.Ok? ==> r.value.acceptEncoding == request.acceptEncoding && r.value.properties == request.properties
    ensures r.Ok? ==> (r.value.content.Some? <==> request.content.Some?)
    ensures request.content.None? || request.acceptEncoding == [] ==> r == Ok(request)
  {
    if request.content.Some? && request.acceptEncoding != [] then
      match CompressContent(h, request.acceptEncoding, request.content.value)
      case Err(e) => Err(e)
      case Ok(c) => Ok(request.(content := Some(c)))
    else Ok(request)
  }

  /** The response half of `SendAsync`: buffer (any failure, a missing
      response included, leaves the response as it is), then
      `DecompressResponse` when the content names an encoding. */
  function DecompressResponse(h: Handler, response: Option<Response>): (r: Result<Option<Response>, Error>)
    ensures r.Ok? ==> (r.value.Some? <==> response.Some?)
  {
    match response
    case None => Ok(None)
    case Some(resp) =>
      if resp.content.None? then Ok(response)
      else match LoadIntoBuffer(resp.content.value)
        case Err(_) => Ok(response)
        case Ok(c) =>
          if Encodings(c.headers) == [] then Ok(Some(Response(Some(c))))
          else match Decoding.DecompressBody(h.compressors, c, false, Some("response"))
            case Err(e) => Err(e)
            case Ok(d) => Ok(Some(Response(Some(d))))
  }

  /** `SendAsync`. */
  function SendAsync(h: Handler, request: Request, inner: Request -> Option<Response>): (r: Result<Option<Response>, Error>)
    ensures CompressRequest(h, request).Err? ==> r == Err(CompressRequest(h, request).error)
    ensures request.content.None? || request.acceptEncoding == [] ==> r == DecompressResponse(h, inner(request))
    ensures r.Ok? ==> var d := CompressRequest(h, request);
              d.Ok? && (r.value.Some? <==> inner(d.value).Some?)
  {
    match CompressRequest(h, request)
    case Err(e) => Err(e)
    case Ok(request') => DecompressResponse(h, inner(request'))
  }

  // ---------------------------------------------------------------------
  // Properties
  // ---------------------------------------------------------------------

  /** The length the threshold sees for readable content: the stored
      Content-Length when there is one, otherwise the size of the body,
      either computed or measured by buffering. */
  function Gauged(c: Content): Option<nat> {
    if Has(c.headers, ContentLength) then StoredLength(c.headers)
    else if c.lengthSet then None
    else Some(|Payload(c)|)
  }

  /** A readable plain request body is compressed with compressor k exactly
      when the query chose k and its gauged length meets the threshold; the
      result stands for the encoded or the original bytes accordingly. */
  lemma {:induction false} CompressContentSpec(h: Handler, accept: seq<Negotiation.Coding>, c: Content, k: nat)
    requires Live(c) && c.body.Raw?
    requires Negotiation.Negotiate(accept, h.compressors) == Some(k)
    requires c.lengthSet ==> h.threshold <= 0
    ensures CompressContent(h, accept, c).Ok?
    ensures var r := CompressContent(h, accept, c).value;
            && (r.body.Compressed? <==> Meets(h.threshold, Gauged(c)))
            && (r.body.Compressed? ==> r.body.compressor == h.compressors[k] && Payload(r) == h.compressors[k].deflate(Payload(c)))
            && (!r.body.Compressed? ==> Payload(r) == Payload(c))
  {
    var (length, c1) := ReadContentLength(c).value;
    assert c1.body == c.body && !c1.disposed && c1.buffer == c.buffer;
    assert Live(c1);
    if length.None? {
      LoadIntoBufferLive(c1);
    }
    var c2 := if length.None? then LoadIntoBuffer(c1).value else c1;
    assert Live(c2) && c2.body == c.body && Payload(c2) == Payload(c);
    Wrapping.CompressWithLive(h.threshold, c2, h.compressors[k], false, Some("request"));
    if h.threshold > 0 {
      ReadContentLengthIdempotent(c);
      if length.None? && !Has(c.headers, ContentLength) {
        LengthAfterBuffering(c2);
      }
      assert Wrapping.Gauge(h.threshold, c2) == Gauged(c);
    }
  }

  /** Without acceptable codings the request content is not touched. */
  lemma {:induction false} NoChoiceNoChange(h: Handler, accept: seq<Negotiation.Coding>, c: Content)
    requires Negotiation.Negotiate(accept, h.compressors).None?
    ensures CompressContent(h, accept, c) == Ok(c)
  {
  }

  /** A missing response, or one whose content cannot be buffered, is
      handed back as it came. */
  lemma {:induction false} UnreadableResponsePasses(h: Handler, response: Option<Response>)
    requires response.Some? && response.value.content.Some? ==> response.value.content.value.disposed
    ensures DecompressResponse(h, response) == Ok(response)
  {
  }

  /** A readable plain response in an encoding a compressor has is decoded; one
      the codec rejects fails with a message naming the compressor. */
  lemma {:induction false} ResponseDecompressed(h: Handler, c: Content)
    requires Live(c) && c.body.Raw? && Encodings(c.headers) != []
    requires Decoding.DecoderFor(c, h.compressors).Some?
    ensures LoadIntoBuffer(c).Ok?
    ensures var comp := h.compressors[Decoding.DecoderFor(c, h.compressors).value];
            var r := DecompressResponse(h, Some(Response(Some(c))));
            match comp.inflate(Payload(c))
            case Some(d) => r.Ok? && Payload(r.value.value.content.value) == d
            case None => r == Err(Wrapped(FailureMessage("decompress", "response", comp.typeName), InvalidData))
  {
    LoadIntoBufferLive(c);
    var b := LoadIntoBuffer(c).value;
    assert Decoding.DecoderFor(b, h.compressors) == Decoding.DecoderFor(c, h.compressors) by {
      assert b.headers == c.headers;
    }
  }
}
