/** `HttpContentOperations.DecompressContent` of the current library: reads
    the compressed content as a byte array, decodes it into a fresh
    in-memory stream, rewinds it, wraps it in a `StreamContent` and copies
    the compressed content's headers onto it with the default switches. The
    compressed content is left buffered, not disposed. */
module ContentOperations {
  import opened Wrappers
  import opened Errors
  import opened Headers
  import opened Codecs
  import opened Contents
  import HeaderCopy
  import CompressedContent

  /** The decompressed content and the compressed content as reading left it. */
  function DecompressContent(compressed: Content, compressor: Compressor): (r: Result<(Content, Content), Error>)
    ensures ReadAsByteArray(compressed).Err? ==> r == Err(ReadAsByteArray(compressed).error)
    ensures ReadAsByteArray(compressed).Ok? && compressor.inflate(ReadAsByteArray(compressed).value.0).None? ==>
              r == Err(InvalidData)
    ensures r.Ok? ==>
              && ReadAsByteArray(compressed).Ok?
              && compressor.inflate(ReadAsByteArray(compressed).value.0) == Some(Payload(r.value.0))
              && r.value.0.body.Raw? && r.value.0.body.kind == StreamContent(true)
              && !r.value.0.disposed && r.value.0.buffer.None?
              && r.value.1 == ReadAsByteArray(compressed).value.1
  {
    match ReadAsByteArray(compressed)
    case Err(e) => Err(e)
    case Ok((bytes, compressed')) =>
      match compressor.inflate(bytes)
      case None => Err(InvalidData)
      case Some(decoded) =>
        var s := Rewind(Write(Empty, decoded));
        WriteEmpty(decoded);
        Ok((StreamContentOf(s, HeaderCopy.CopyTo(compressed'.headers, [], HeaderCopy.Defaults)), compressed'))
  }

  /** Readable compressed content whose bytes decode succeeds; the result
      stands for the decoded bytes and the input stays readable. */
  lemma DecompressLive(compressed: Content, compressor: Compressor, decoded: Bytes)
    requires Live(compressed)
    requires compressor.inflate(Payload(compressed)) == Some(decoded)
    ensures DecompressContent(compressed, compressor).Ok?
    ensures Payload(DecompressContent(compressed, compressor).value.0) == decoded
    ensures Live(DecompressContent(compressed, compressor).value.1)
    ensures Payload(DecompressContent(compressed, compressor).value.1) == Payload(compressed)
  {
    ReadAsByteArrayLive(compressed);
  }

  /** Undecodable bytes fail with invalid data. */
  lemma DecompressGarbage(compressed: Content, compressor: Compressor)
    requires Live(compressed)
    requires compressor.inflate(Payload(compressed)).None?
    ensures DecompressContent(compressed, compressor) == Err(InvalidData)
  {
    ReadAsByteArrayLive(compressed);
  }

  /** Disposed content cannot be decompressed. */
  lemma DecompressDisposed(compressed: Content, compressor: Compressor)
    requires compressed.disposed
    ensures DecompressContent(compressed, compressor) == Err(ObjectDisposed)
  {
    DisposedFails(compressed);
  }

  /** Received plain content with well-formed headers: the decompressed
      content carries every header unchanged, Content-Encoding and the
      compressed Content-Length included. */
  lemma DecompressKeepsHeaders(compressed: Content, compressor: Compressor, m: string)
    requires compressed.body.Raw? && Live(compressed)
    requires WellFormed(compressed.headers)
    requires compressor.inflate(Payload(compressed)).Some?
    ensures DecompressContent(compressed, compressor).Ok?
    ensures Values(DecompressContent(compressed, compressor).value.0.headers, m) == Values(compressed.headers, m)
  {
    LoadIntoBufferLive(compressed);
    ReadAsByteArrayLive(compressed);
    HeaderCopy.CopyIntoAbsent(compressed.headers, [], HeaderCopy.Defaults, m);
  }

  /** Decompressing what the current wrapper writes gives back the wrapped
      bytes when the codec round-trips. */
  lemma DecompressInvertsWrapper(content: Content, compressor: Compressor)
    requires Live(content) && RoundTrips(compressor)
    ensures DecompressContent(CompressedContent.Wrap(content, compressor), compressor).Ok?
    ensures Payload(DecompressContent(CompressedContent.Wrap(content, compressor), compressor).value.0) == Payload(content)
  {
    var w := CompressedContent.Wrap(content, compressor);
    assert compressor.inflate(compressor.deflate(Payload(content))) == Some(Payload(content));
    DecompressLive(w, compressor, Payload(content));
  }

  /** A gzip response of 749 bytes that decodes to 4596: the decompressed
      content still says gzip and 749, and reads as 4596 bytes. */
  lemma DecompressedImage(compressor: Compressor, data: Bytes, decoded: Bytes)
    requires |data| == 749 && |decoded| == 4596
    requires compressor.inflate(data) == Some(decoded)
    ensures
      var hs := [Field(ContentType, [Str("image/png")]), Field(ContentEncoding, [Str("gzip")]), Field(ContentLength, [Num(749)])];
      var r := DecompressContent(Plain(StreamContent(false), data, hs), compressor);
      && r.Ok?
      && Encodings(r.value.0.headers) == ["gzip"]
      && StoredLength(r.value.0.headers) == Some(749)
      && ReadAsByteArray(r.value.0).Ok? && |ReadAsByteArray(r.value.0).value.0| == 4596
  {
    var hs := [Field(ContentType, [Str("image/png")]), Field(ContentEncoding, [Str("gzip")]), Field(ContentLength, [Num(749)])];
    var c := Plain(StreamContent(false), data, hs);
    KnownNames();
    KnownSingleValued();
    assert WellFormed(hs);
    DecompressKeepsHeaders(c, compressor, ContentEncoding);
    DecompressKeepsHeaders(c, compressor, ContentLength);
    FindIs(hs, ContentEncoding, Some(1));
    FindIs(hs, ContentLength, Some(2));
    var r := DecompressContent(c, compressor).value.0;
    assert Live(c);
    DecompressLive(c, compressor, decoded);
    ReadAsByteArrayLive(r);
  }

  /** Content that arrived without a Content-Length: the decompressed
      content computes its length from the decoded bytes. */
  lemma DecompressComputesLength(compressed: Content, compressor: Compressor, data: Bytes, decoded: Bytes)
    requires compressed == Plain(StreamContent(false), data, [])
    requires compressor.inflate(data) == Some(decoded)
    ensures DecompressContent(compressed, compressor).Ok?
    ensures ReadContentLength(DecompressContent(compressed, compressor).value.0).Ok?
    ensures ReadContentLength(DecompressContent(compressed, compressor).value.0).value.0 == Some(|decoded|)
  {
    assert Live(compressed);
    DecompressLive(compressed, compressor, decoded);
    DecompressKeepsHeaders(compressed, compressor, ContentLength);
    LoadIntoBufferLive(compressed);
    var compressed' := ReadAsByteArray(compressed).value.1;
    HeaderCopy.CopyToEffect(compressed'.headers, [], HeaderCopy.Defaults, ContentLength);
  }
}
