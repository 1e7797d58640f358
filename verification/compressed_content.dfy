/** The compressing wrapper of the current library (`CompressedContent` in
    src/Core): it takes the headers of the content it wraps, except
    Content-Length, adds its encoding token to Content-Encoding, reports an
    unknown length until it has been written, and on writing sends the
    encoding of the wrapped bytes and records their size. */
module CompressedContent {
  import opened Wrappers
  import opened Errors
  import opened Headers
  import opened Codecs
  import opened Contents
  import HeaderCopy

  /** `CopyHeaders`: the original's headers, Content-Length left out, onto
      the wrapper's empty store, then the token added to Content-Encoding. */
  function WrapperHeaders(original: Headers, token: string): Headers {
    var copied := HeaderCopy.CopyTo(original, [], HeaderCopy.Flags(false, true, false));
    AddValues(copied, ContentEncoding, [Str(token)])
  }

  /** The constructor, for arguments known to be non-null. */
  function Wrap(content: Content, compressor: Compressor): (r: Content)
    ensures r.body == Compressed(content, compressor)
    ensures !r.disposed && r.buffer.None? && !r.lengthSet
  {
    Content(Compressed(content, compressor), WrapperHeaders(content.headers, compressor.encodingType), false, None, false)
  }

  /** `new CompressedContent(content, compressor)`, null arguments included. */
  function New(content: Option<Content>, compressor: Option<Compressor>): (r: Result<Content, Error>)
    ensures content.None? ==> r == Err(ArgumentNull("content"))
    ensures content.Some? && compressor.None? ==> r == Err(ArgumentNull("compressor"))
    ensures content.Some? && compressor.Some? ==> r.Ok? && r.value.body == Compressed(content.value, compressor.value)
  {
    if content.None? then Err(ArgumentNull("content"))
    else if compressor.None? then Err(ArgumentNull("compressor"))
    else Ok(Wrap(content.value, compressor.value))
  }

  /** `SerializeToStreamAsync(stream, context)`: a null stream is refused;
      otherwise the encoding of the original's bytes is written and the
      wrapper's Content-Length becomes the encoded size. */
  function SerializeToStream(c: Content, stream: Option<Stream>): Result<(Stream, Content), Error>
    requires c.body.Compressed?
    requires stream.Some? ==> stream.value.Valid()
  {
    match stream
    case None => Err(ArgumentNull("stream"))
    case Some(s) =>
      match Serialize(c)
      case Err(e) => Err(e)
      case Ok((bytes, c')) => Ok((Write(s, bytes), c'))
  }

  // ---------------------------------------------------------------------
  // Headers
  // ---------------------------------------------------------------------

  /** The wrapper carries every header of the original except
      Content-Length, and Content-Encoding gains the token at its end. */
  lemma WrapperHeadersEffect(original: Headers, token: string, m: string)
    requires WellFormed(original)
    ensures SameName(m, ContentLength) ==> Values(WrapperHeaders(original, token), m) == []
    ensures SameName(m, ContentEncoding) ==>
              Values(WrapperHeaders(original, token), m) == Values(original, ContentEncoding) + [Str(token)]
    ensures !SameName(m, ContentLength) && !SameName(m, ContentEncoding) ==>
              Values(WrapperHeaders(original, token), m) == Values(original, m)
  {
    var flags := HeaderCopy.Flags(false, true, false);
    var copied := HeaderCopy.CopyTo(original, [], flags);
    KnownNames();
    KnownSingleValued();
    assert !SameName(ContentEncoding, ContentLength);
    HeaderCopy.CopyToEffect(original, [], flags, m);
    AddValuesEffect(copied, ContentEncoding, [Str(token)], m);
    if SameName(m, ContentLength) {
      HeaderCopy.CopySkipsContentLength(original, [], flags);
      FindSameName(copied, m, ContentLength);
      FindSameName(original, m, ContentLength);
      assert !SameName(m, ContentEncoding);
    } else {
      HeaderCopy.CopyIntoAbsent(original, [], flags, m);
      if SameName(m, ContentEncoding) {
        FindSameName(copied, m, ContentEncoding);
        FindSameName(original, m, ContentEncoding);
        assert Appended(ContentEncoding, Values(copied, ContentEncoding), [Str(token)])
            == Values(copied, ContentEncoding) + [Str(token)];
      }
    }
  }

  /** The wrapper's encodings are the original's followed by the token. */
  lemma WrapperEncodings(content: Content, compressor: Compressor)
    requires WellFormed(content.headers)
    ensures Encodings(Wrap(content, compressor).headers) == Encodings(content.headers) + [compressor.encodingType]
  {
    WrapperHeadersEffect(content.headers, compressor.encodingType, ContentEncoding);
    TextsAppend(Values(content.headers, ContentEncoding), [Str(compressor.encodingType)]);
  }

  /** Before it is written, the wrapper cannot tell its length: it has no
      Content-Length header, it computes none, and the getter reports null. */
  lemma LengthUnknownBeforeSerialization(content: Content, compressor: Compressor)
    requires WellFormed(content.headers)
    ensures TryComputeLength(Wrap(content, compressor)).None?
    ensures !Has(Wrap(content, compressor).headers, ContentLength)
    ensures ReadContentLength(Wrap(content, compressor)) == Ok((None, Wrap(content, compressor)))
  {
    WrapperHeadersEffect(content.headers, compressor.encodingType, ContentLength);
    var flags := HeaderCopy.Flags(false, true, false);
    var copied := HeaderCopy.CopyTo(content.headers, [], flags);
    HeaderCopy.CopyToEffect(content.headers, [], flags, ContentLength);
    AddValuesEffect(copied, ContentEncoding, [Str(compressor.encodingType)], ContentLength);
  }

  // ---------------------------------------------------------------------
  // Writing and disposal
  // ---------------------------------------------------------------------

  /** Writing to a null stream is refused. */
  lemma NullStreamRefused(c: Content)
    requires c.body.Compressed?
    ensures SerializeToStream(c, None) == Err(ArgumentNull("stream"))
  {
  }

  /** Writing a freshly made wrapper over readable content appends the
      encoding of all the original's bytes to the stream, and afterwards the
      wrapper's Content-Length is the encoded size. */
  lemma SerializeWritesEncoding(content: Content, compressor: Compressor, s: Stream)
    requires Live(content) && s.Valid()
    ensures SerializeToStream(Wrap(content, compressor), Some(s)).Ok?
    ensures SerializeToStream(Wrap(content, compressor), Some(s)).value.0 == Write(s, compressor.deflate(Payload(content)))
    ensures StoredLength(SerializeToStream(Wrap(content, compressor), Some(s)).value.1.headers)
              == Some(|compressor.deflate(Payload(content))|)
    ensures SerializeToStream(Wrap(content, compressor), Some(s)).value.1.lengthSet
  {
    var w := Wrap(content, compressor);
    ReadAsByteArrayLive(content);
    var o' := ReadAsByteArray(content).value.1;
    var z := compressor.deflate(Payload(content));
    SetContentLengthStores(w.(body := Compressed(o', compressor)), Some(|z|));
  }

  /** Disposing the wrapper disposes the original: it can no longer be read. */
  lemma DisposeReleasesOriginal(c: Content)
    requires c.body.Compressed?
    ensures Dispose(c).body.original.disposed
    ensures ReadAsByteArray(Dispose(c).body.original) == Err(ObjectDisposed)
    ensures LoadIntoBuffer(Dispose(c)) == Err(ObjectDisposed)
  {
  }

  /** What the wrapper writes decodes back to the original's bytes when the
      codec round-trips. */
  lemma WrapperRoundTrip(content: Content, compressor: Compressor)
    requires Live(content) && RoundTrips(compressor)
    ensures ReadAsByteArray(Wrap(content, compressor)).Ok?
    ensures compressor.inflate(ReadAsByteArray(Wrap(content, compressor)).value.0) == Some(Payload(content))
  {
    ReadAsByteArrayLive(Wrap(content, compressor));
  }
}
