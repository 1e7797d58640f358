/** The legacy library's `DecompressionHandler`: after the inner handler
    answers, decodes the response content with the compressor registered
    for its first Content-Encoding token. Its own `DecompressContentAsync`
    and `CopyHeaders` are the same steps as the legacy
    `HttpContentOperations`, so the decoding goes through that model.

    The handler dereferences the response content before testing it for
    null, so a response without content fails with a null reference
    instead of passing through. `DecompressAsWritten` keeps that order;
    `Decompress` tests for null first, as evidently intended, and is the
    one `SendAsync` uses. */
module LegacyDecompression {
  import opened Wrappers
  import opened Errors
  import opened Headers
  import opened Codecs
  import opened Contents
  import opened Messages
  import Decoding

  /** The decoding branch shared by both versions. */
  function DecodeResponse(compressors: seq<Compressor>, c: Content): (r: Result<Option<Response>, Error>)
    ensures r.Ok? ==> r.value.Some? && r.value.value.content.Some?
  {
    if Encodings(c.headers) == [] then Ok(Some(Response(Some(c))))
    else match Decoding.DecompressBody(compressors, c, true, None)
      case Err(e) => Err(e)
      case Ok(d) => Ok(Some(Response(Some(d))))
  }

  /** The test as written: the encodings of the content are read first, so
      a missing content throws before the null test is reached. */
  function DecompressAsWritten(compressors: seq<Compressor>, response: Option<Response>): (r: Result<Option<Response>, Error>)
    ensures response.None? ==> r == Err(NullReference)
  {
    match response
    case None => Err(NullReference)
    case Some(resp) =>
      match resp.content
      case None => Err(NullReference)
      case Some(c) => DecodeResponse(compressors, c)
  }

  /** The test as intended: a response without content passes. */
  function Decompress(compressors: seq<Compressor>, response: Option<Response>): (r: Result<Option<Response>, Error>)
    ensures response.None? ==> r == Err(NullReference)
    ensures response.Some? && response.value.content.None? ==> r == Ok(response)
  {
    match response
    case None => Err(NullReference)
    case Some(resp) =>
      match resp.content
      case None => Ok(response)
      case Some(c) => DecodeResponse(compressors, c)
  }

  /** `SendAsync`, with the null test in its intended place. */
  function SendAsync(compressors: seq<Compressor>, request: Request, inner: Request -> Option<Response>): (r: Result<Option<Response>, Error>)
    ensures inner(request).Some? && inner(request).value.content.None? ==> r == Ok(inner(request))
    ensures inner(request).None? ==> r == Err(NullReference)
    ensures r != DecompressAsWritten(compressors, inner(request)) <==>
              inner(request).Some? && inner(request).value.content.None?
  {
    NullTestIsDead(compressors, inner(request));
    Decompress(compressors, inner(request))
  }

  // ---------------------------------------------------------------------
  // Properties
  // ---------------------------------------------------------------------

  /** The discrepancy: a response without content (say, an empty 204) makes
      the handler as written throw, while the intended one passes it on. */
  lemma {:induction false} ContentlessResponseThrows(compressors: seq<Compressor>)
    ensures DecompressAsWritten(compressors, Some(Response(None))) == Err(NullReference)
    ensures Decompress(compressors, Some(Response(None))) == Ok(Some(Response(None)))
  {
  }

  /** The null test as written never decides anything: the two versions
      differ exactly on responses without content. */
  lemma {:induction false} NullTestIsDead(compressors: seq<Compressor>, response: Option<Response>)
    ensures DecompressAsWritten(compressors, response) != Decompress(compressors, response) <==>
              response.Some? && response.value.content.None?
  {
  }

  /** The intended handler never fails with a null reference on a response
      it was given: its failures are disposal and undecodable data. */
  lemma {:induction false} IntendedNeverDereferencesNull(compressors: seq<Compressor>, response: Response)
    ensures Decompress(compressors, Some(response)).Err? ==>
              DisposalError(Decompress(compressors, Some(response)).error) ||
              Decompress(compressors, Some(response)).error == InvalidData
  {
    match response.content {
      case None =>
      case Some(c) =>
        match Decoding.DecoderFor(c, compressors) {
          case None =>
          case Some(k) => Decoding.DecodeErrors(c, compressors[k], true);
        }
    }
  }

  /** A readable response in an encoding a compressor has is decoded; the
      codec's failure surfaces unwrapped. */
  lemma {:induction false} ResponseDecompressed(compressors: seq<Compressor>, c: Content)
    requires Live(c) && Encodings(c.headers) != []
    requires Decoding.DecoderFor(c, compressors).Some?
    ensures var comp := compressors[Decoding.DecoderFor(c, compressors).value];
            var r := Decompress(compressors, Some(Response(Some(c))));
            match comp.inflate(Payload(c))
            case Some(d) => r.Ok? && Payload(r.value.value.content.value) == d
            case None => r == Err(InvalidData)
  {
  }
}
