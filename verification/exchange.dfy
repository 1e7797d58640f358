/** The client and server handlers of each library facing each other: what
    one side compresses, the other side decompresses back to the bytes it
    started from, whether or not the threshold let compression happen.

    `Transmit` is a modelling device, not a part of the library: it stands
    for the wire between the two `HttpClient`/host pipelines. The receiving
    side sees a non-seekable stream content holding the bytes the sent
    content serializes to, under the headers the sent content carries once
    serialized. */
module Exchange {
  import opened Wrappers
  import opened Errors
  import opened Headers
  import opened Codecs
  import opened Contents
  import opened Messages
  import opened Thresholds
  import Text
  import Negotiation
  import Wrapping
  import Decoding
  import CompressedContent
  import LegacyCompressedContent
  import Client
  import Server
  import LegacyClient
  import LegacyServer

  /** The content the peer receives for `c`. */
  function Transmit(c: Content): (r: Result<Content, Error>)
    ensures r.Ok? ==> r.value.body.Raw? && r.value.body.kind == StreamContent(false)
    ensures r.Ok? ==> !r.value.disposed && r.value.buffer.None? && !r.value.lengthSet
    ensures r.Err? ==> DisposalError(r.error)
  {
    ReadAsByteArrayErrors(c);
    match ReadAsByteArray(c)
    case Err(e) => Err(e)
    case Ok((bytes, c')) => Ok(Plain(StreamContent(false), bytes, c'.headers))
  }

  /** No two compressors answer to the same token up to letter case. */
  predicate UniqueTokens(compressors: seq<Compressor>) {
    forall i, j :: 0 <= i < j < |compressors| ==>
      !Text.EqualsIgnoreCase(compressors[i].encodingType, compressors[j].encodingType)
  }

  /** `y` is `c` as a handler may leave it before compressing: the same
      body, still readable, possibly buffered and with a Content-Length
      stored, and with the same encodings. */
  ghost predicate Prepared(y: Content, c: Content) {
    && y.body == c.body
    && Live(y)
    && WellFormed(y.headers)
    && Encodings(y.headers) == Encodings(c.headers)
  }

  /** `r` is what a handler sends for `c`: either `c` prepared, or the
      current (or legacy) wrapper around `c` prepared, using `comp`. */
  ghost predicate Sent(r: Content, c: Content, comp: Compressor, legacy: bool) {
    || Prepared(r, c)
    || (!r.body.Raw? && Prepared(r.body.original, c) && r == Wrapping.WrapWith(r.body.original, comp, legacy))
  }

  // ---------------------------------------------------------------------
  // The sending side
  // ---------------------------------------------------------------------

  /** The threshold step turns prepared content into sent content, whatever
      the threshold is. */
  lemma {:induction false} ThresholdSends(threshold: Int32, y: Content, c: Content, comp: Compressor, legacy: bool, direction: Option<string>)
    requires Prepared(y, c) && c.body.Raw?
    ensures Wrapping.CompressWith(threshold, y, comp, legacy, direction).Ok?
    ensures Sent(Wrapping.CompressWith(threshold, y, comp, legacy, direction).value, c, comp, legacy)
  {
    if threshold > 0 {
      var y' := ReadContentLength(y).value.1;
      ReadContentLengthHeaders(y, ContentEncoding);
      assert Prepared(y', c);
    }
  }

  /** A readable plain request body with a negotiated compressor is sent
      either as it is or wrapped with that compressor. */
  lemma {:induction false} ClientSends(h: Client.Handler, accept: seq<Negotiation.Coding>, c: Content, k: nat)
    requires Live(c) && c.body.Raw? && WellFormed(c.headers)
    requires Negotiation.Negotiate(accept, h.compressors) == Some(k)
    ensures Client.CompressContent(h, accept, c).Ok?
    ensures Sent(Client.CompressContent(h, accept, c).value, c, h.compressors[k], false)
  {
    var (length, c1) := ReadContentLength(c).value;
    ReadContentLengthHeaders(c, ContentEncoding);
    assert Prepared(c1, c);
    if length.None? {
      LoadIntoBufferLive(c1);
    }
    var c2 := if length.None? then LoadIntoBuffer(c1).value else c1;
    assert Prepared(c2, c);
    ThresholdSends(h.threshold, c2, c, h.compressors[k], false, Some("request"));
  }

  /** A readable plain response, when the enable rule says yes and a
      compressor is negotiated, is sent buffered, either as it is or
      wrapped with that compressor. */
  lemma {:induction false} ServerSends(h: Server.Handler, request: Request, c: Content, k: nat)
    requires h.enable(request) == Ok(true)
    requires Live(c) && c.body.Raw? && WellFormed(c.headers)
    requires Negotiation.Negotiate(request.acceptEncoding, h.compressors) == Some(k)
    ensures Server.CompressResponseOf(h, request, Some(Response(Some(c)))).Ok?
    ensures Server.CompressResponseOf(h, request, Some(Response(Some(c)))).value.value.content.Some?
    ensures Sent(Server.CompressResponseOf(h, request, Some(Response(Some(c)))).value.value.content.value, c, h.compressors[k], false)
  {
    LoadIntoBufferLive(c);
    var b := LoadIntoBuffer(c).value;
    assert Prepared(b, c);
    ThresholdSends(h.threshold, b, c, h.compressors[k], false, Some("response"));
  }

  /** The legacy client sends a readable plain request body with a
      negotiated compressor either as it is or in the legacy wrapper. */
  lemma {:induction false} LegacyClientSends(h: LegacyClient.Handler, request: Request, c: Content, k: nat)
    requires request.content == Some(c) && request.acceptEncoding != []
    requires Live(c) && c.body.Raw? && WellFormed(c.headers)
    requires Negotiation.Negotiate(request.acceptEncoding, h.compressors) == Some(k)
    ensures LegacyClient.CompressRequest(h, request).Ok?
    ensures Sent(LegacyClient.CompressRequest(h, request).value.content.value, c, h.compressors[k], true)
  {
    ThresholdSends(h.threshold, c, c, h.compressors[k], true, None);
  }

  /** The legacy server sends a readable plain response, when the request
      lists codings and a compressor is negotiated, buffered, either as it
      is or in the legacy wrapper. */
  lemma {:induction false} LegacyServerSends(h: LegacyServer.Handler, request: Request, c: Content, k: nat)
    requires request.acceptEncoding != []
    requires Live(c) && c.body.Raw? && WellFormed(c.headers)
    requires Negotiation.Negotiate(request.acceptEncoding, h.compressors) == Some(k)
    ensures LegacyServer.CompressResponseOf(h, request, Some(Response(Some(c)))).Ok?
    ensures LegacyServer.CompressResponseOf(h, request, Some(Response(Some(c)))).value.value.content.Some?
    ensures Sent(LegacyServer.CompressResponseOf(h, request, Some(Response(Some(c)))).value.value.content.value, c, h.compressors[k], true)
  {
    LoadIntoBufferLive(c);
    var b := LoadIntoBuffer(c).value;
    assert Prepared(b, c);
    ThresholdSends(h.threshold, b, c, h.compressors[k], true, Some("response"));
  }

  // ---------------------------------------------------------------------
  // The wire
  // ---------------------------------------------------------------------

  /** Sent content arrives readable. It carries no encoding when it was
      sent as it was, and otherwise exactly the chosen compressor's token,
      which the receiver maps back to that compressor; in both cases the
      receiver recovers the original bytes. */
  lemma {:induction false} Transmitted(r: Content, c: Content, compressors: seq<Compressor>, k: nat, legacy: bool)
    requires k < |compressors| && UniqueTokens(compressors) && RoundTrips(compressors[k])
    requires c.body.Raw? && Encodings(c.headers) == []
    requires Sent(r, c, compressors[k], legacy)
    ensures Transmit(r).Ok?
    ensures Live(Transmit(r).value)
    ensures Encodings(Transmit(r).value.headers) == [] <==> r.body.Raw?
    ensures r.body.Raw? ==> Payload(Transmit(r).value) == Payload(c)
    ensures !r.body.Raw? ==> Decoding.DecoderFor(Transmit(r).value, compressors) == Some(k)
    ensures !r.body.Raw? ==> compressors[k].inflate(Payload(Transmit(r).value)) == Some(Payload(c))
  {
    var comp := compressors[k];
    if !r.body.Raw? {
      var z := r.body.original;
      assert Prepared(z, c);
      assert Live(r);
      ReadAsByteArrayLive(r);
      ReadAsByteArrayLive(z);
      ReadAsStreamLive(z);
      var bytes := comp.deflate(Payload(z));
      assert LoadIntoBuffer(r).value.headers == Set(r.headers, ContentLength, Some(Num(|bytes|)));
      KnownNames();
      SetKeepsOthers(r.headers, ContentLength, Num(|bytes|), ContentEncoding);
      if legacy {
        LegacyCompressedContent.WrapperEncodings(z, comp);
      } else {
        CompressedContent.WrapperEncodings(z, comp);
      }
      var t := Transmit(r).value;
      assert Encodings(t.headers) == [comp.encodingType];
      Decoding.DecoderForSpec(t, compressors, k);
    } else {
      assert Prepared(r, c);
      ReadAsByteArrayLive(r);
      assert LoadIntoBuffer(r).value.headers == r.headers;
    }
  }

  // ---------------------------------------------------------------------
  // The round trips
  // ---------------------------------------------------------------------

  /** A request body the client sends is decompressed by a server with the
      same compressors back to the bytes the client started from. */
  lemma {:induction false} RequestRoundTrip(client: Client.Handler, server: Server.Handler, request: Request, c: Content, k: nat)
    requires request.content == Some(c) && request.acceptEncoding != []
    requires Live(c) && c.body.Raw? && WellFormed(c.headers) && Encodings(c.headers) == []
    requires Negotiation.Negotiate(request.acceptEncoding, client.compressors) == Some(k)
    requires server.compressors == client.compressors
    requires UniqueTokens(client.compressors) && RoundTrips(client.compressors[k])
    ensures Client.CompressRequest(client, request).Ok?
    ensures var sent := Client.CompressRequest(client, request).value.content.value;
            && Transmit(sent).Ok?
            && var received := Server.DecompressRequest(server, request.(content := Some(Transmit(sent).value)));
               && received.Ok?
               && Payload(received.value.content.value) == Payload(c)
  {
    ClientSends(client, request.acceptEncoding, c, k);
    var sent := Client.CompressContent(client, request.acceptEncoding, c).value;
    Transmitted(sent, c, client.compressors, k, false);
  }

  /** A response the server sends is decompressed by a client with the same
      compressors back to the bytes the server started from. */
  lemma {:induction false} ResponseRoundTrip(server: Server.Handler, client: Client.Handler, request: Request, c: Content, k: nat)
    requires server.enable(request) == Ok(true)
    requires Live(c) && c.body.Raw? && WellFormed(c.headers) && Encodings(c.headers) == []
    requires Negotiation.Negotiate(request.acceptEncoding, server.compressors) == Some(k)
    requires client.compressors == server.compressors
    requires UniqueTokens(server.compressors) && RoundTrips(server.compressors[k])
    ensures Server.CompressResponseOf(server, request, Some(Response(Some(c)))).Ok?
    ensures Server.CompressResponseOf(server, request, Some(Response(Some(c)))).value.value.content.Some?
    ensures var sent := Server.CompressResponseOf(server, request, Some(Response(Some(c)))).value.value.content.value;
            && Transmit(sent).Ok?
            && var received := Client.DecompressResponse(client, Some(Response(Some(Transmit(sent).value))));
               && received.Ok?
               && received.value.Some? && received.value.value.content.Some?
               && Payload(received.value.value.content.value) == Payload(c)
  {
    ServerSends(server, request, c, k);
    var sent := Server.CompressResponseOf(server, request, Some(Response(Some(c)))).value.value.content.value;
    Transmitted(sent, c, server.compressors, k, false);
    var t := Transmit(sent).value;
    LoadIntoBufferLive(t);
    var b := LoadIntoBuffer(t).value;
    assert b.headers == t.headers && Payload(b) == Payload(t);
    if !sent.body.Raw? {
      assert Decoding.DecoderFor(b, client.compressors) == Some(k);
    }
  }

  /** A request body the legacy client sends is decompressed by a legacy
      server with the same compressors back to the bytes the client started
      from. */
  lemma {:induction false} LegacyRequestRoundTrip(client: LegacyClient.Handler, server: LegacyServer.Handler, request: Request, c: Content, k: nat)
    requires request.content == Some(c) && request.acceptEncoding != []
    requires Live(c) && c.body.Raw? && WellFormed(c.headers) && Encodings(c.headers) == []
    requires Negotiation.Negotiate(request.acceptEncoding, client.compressors) == Some(k)
    requires server.compressors == client.compressors
    requires UniqueTokens(client.compressors) && RoundTrips(client.compressors[k])
    ensures LegacyClient.CompressRequest(client, request).Ok?
    ensures var sent := LegacyClient.CompressRequest(client, request).value.content.value;
            && Transmit(sent).Ok?
            && var received := LegacyServer.DecompressRequest(server, request.(content := Some(Transmit(sent).value)));
               && received.Ok?
               && Payload(received.value.content.value) == Payload(c)
  {
    LegacyClientSends(client, request, c, k);
    var sent := LegacyClient.CompressRequest(client, request).value.content.value;
    Transmitted(sent, c, client.compressors, k, true);
  }

  /** A response the legacy server sends is decompressed by a legacy client
      with the same compressors back to the bytes the server started from. */
  lemma {:induction false} LegacyResponseRoundTrip(server: LegacyServer.Handler, client: LegacyClient.Handler, request: Request, c: Content, k: nat)
    requires request.acceptEncoding != []
    requires Live(c) && c.body.Raw? && WellFormed(c.headers) && Encodings(c.headers) == []
    requires Negotiation.Negotiate(request.acceptEncoding, server.compressors) == Some(k)
    requires client.compressors == server.compressors
    requires UniqueTokens(server.compressors) && RoundTrips(server.compressors[k])
    ensures LegacyServer.CompressResponseOf(server, request, Some(Response(Some(c)))).Ok?
    ensures LegacyServer.CompressResponseOf(server, request, Some(Response(Some(c)))).value.value.content.Some?
    ensures var sent := LegacyServer.CompressResponseOf(server, request, Some(Response(Some(c)))).value.value.content.value;
            && Transmit(sent).Ok?
            && var received := LegacyClient.DecompressResponse(client, Some(Response(Some(Transmit(sent).value))));
               && received.Ok?
               && received.value.Some? && received.value.value.content.Some?
               && Payload(received.value.value.content.value) == Payload(c)
  {
    LegacyServerSends(server, request, c, k);
    var sent := LegacyServer.CompressResponseOf(server, request, Some(Response(Some(c)))).value.value.content.value;
    Transmitted(sent, c, server.compressors, k, true);
  }
}
