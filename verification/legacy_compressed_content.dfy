/** The compressing wrapper of the legacy library (`Models.CompressedContent`
    in src/Microsoft.AspNet.WebApi.MessageHandlers.Compression). Unlike the
    current one it copies every header of the original without validation,
    Content-Length included, and writing it disposes the original. */
module LegacyCompressedContent {
  import opened Wrappers
  import opened Errors
  import opened Headers
  import opened Codecs
  import opened Contents

  /** The `CopyHeaders` loop: `TryAddWithoutValidation` of each original header. */
  function CopyAll(source: Headers, target: Headers): Headers
    decreases |source|
  {
    if source == [] then target
    else CopyAll(source[1..], AddRaw(target, source[0].name, source[0].values))
  }

  /** `CopyHeaders`: every original header, then the token added to Content-Encoding. */
  function WrapperHeaders(original: Headers, token: string): Headers {
    AddValues(CopyAll(original, []), ContentEncoding, [Str(token)])
  }

  /** The constructor, for arguments known to be non-null. */
  function Wrap(content: Content, compressor: Compressor): (r: Content)
    ensures r.body == LegacyCompressed(content, compressor)
    ensures !r.disposed && r.buffer.None? && !r.lengthSet
  {
    Content(LegacyCompressed(content, compressor), WrapperHeaders(content.headers, compressor.encodingType), false, None, false)
  }

  /** `new CompressedContent(content, compressor)`, null arguments included. */
  function New(content: Option<Content>, compressor: Option<Compressor>): (r: Result<Content, Error>)
    ensures content.None? ==> r == Err(ArgumentNull("content"))
    ensures content.Some? && compressor.None? ==> r == Err(ArgumentNull("compressor"))
    ensures content.Some? && compressor.Some? ==> r.Ok? && r.value.body == LegacyCompressed(content.value, compressor.value)
  {
    if content.None? then Err(ArgumentNull("content"))
    else if compressor.None? then Err(ArgumentNull("compressor"))
    else Ok(Wrap(content.value, compressor.value))
  }

  /** `SerializeToStreamAsync(stream, context)`. */
  function SerializeToStream(c: Content, stream: Option<Stream>): Result<(Stream, Content), Error>
    requires c.body.LegacyCompressed?
    requires stream.Some? ==> stream.value.Valid()
  {
    match stream
    case None => Err(ArgumentNull("stream"))
    case Some(s) =>
      match Serialize(c)
      case Err(e) => Err(e)
      case Ok((bytes, c')) => Ok((Write(s, bytes), c'))
  }

  // ---------------------------------------------------------------------
  // Headers
  // ---------------------------------------------------------------------

  lemma {:induction false} CopyAllUntouched(source: Headers, target: Headers, m: string)
    requires forall i :: 0 <= i < |source| ==> !SameName(m, source[i].name)
    ensures NonEmptyFields(target) ==> NonEmptyFields(CopyAll(source, target))
    ensures Values(CopyAll(source, target), m) == Values(target, m)
    decreases |source|
  {
    if source != [] {
      AddRawEffect(target, source[0].name, source[0].values, m);
      CopyAllUntouched(source[1..], AddRaw(target, source[0].name, source[0].values), m);
    }
  }

  /** Each header's values are appended, unchecked, after what the target holds. */
  lemma {:induction false} CopyAllEffect(source: Headers, target: Headers, m: string)
    requires DistinctNames(source)
    ensures NonEmptyFields(target) ==> NonEmptyFields(CopyAll(source, target))
    ensures Values(CopyAll(source, target), m) == Values(target, m) + Values(source, m)
    decreases |source|
  {
    if source != [] {
      var f := source[0];
      var rest := source[1..];
      var t' := AddRaw(target, f.name, f.values);
      AddRawEffect(target, f.name, f.values, m);
      if SameName(m, f.name) {
        FindSameName(target, m, f.name);
        FindIs(source, m, Some(0));
        forall i | 0 <= i < |rest| ensures !SameName(m, rest[i].name) {
          assert rest[i] == source[i + 1];
        }
        CopyAllUntouched(rest, t', m);
      } else {
        assert DistinctNames(rest) by {
          forall i, j | 0 <= i < j < |rest| ensures !SameName(rest[i].name, rest[j].name) {
            assert rest[i] == source[i + 1] && rest[j] == source[j + 1];
          }
        }
        CopyAllEffect(rest, t', m);
        match Find(rest, m) {
          case None =>
            FindIs(source, m, None);
          case Some(k) =>
            FindIs(source, m, Some(k + 1));
            assert rest[k] == source[k + 1];
        }
      }
    }
  }

  /** The wrapper carries every header of the original, Content-Length
      included, and Content-Encoding gains the token at its end. */
  lemma WrapperHeadersEffect(original: Headers, token: string, m: string)
    requires DistinctNames(original)
    ensures SameName(m, ContentEncoding) ==>
              Values(WrapperHeaders(original, token), m) == Values(original, ContentEncoding) + [Str(token)]
    ensures !SameName(m, ContentEncoding) ==> Values(WrapperHeaders(original, token), m) == Values(original, m)
  {
    var copied := CopyAll(original, []);
    CopyAllEffect(original, [], m);
    KnownNames();
    KnownSingleValued();
    assert !SameName(ContentEncoding, ContentLength);
    AddValuesEffect(copied, ContentEncoding, [Str(token)], m);
    if SameName(m, ContentEncoding) {
      CopyAllEffect(original, [], ContentEncoding);
      FindSameName(original, m, ContentEncoding);
      assert Appended(ContentEncoding, Values(copied, ContentEncoding), [Str(token)])
          == Values(copied, ContentEncoding) + [Str(token)];
    }
  }

  /** The wrapper's encodings are the original's followed by the token. */
  lemma WrapperEncodings(content: Content, compressor: Compressor)
    requires DistinctNames(content.headers)
    ensures Encodings(Wrap(content, compressor).headers) == Encodings(content.headers) + [compressor.encodingType]
  {
    WrapperHeadersEffect(content.headers, compressor.encodingType, ContentEncoding);
    TextsAppend(Values(content.headers, ContentEncoding), [Str(compressor.encodingType)]);
  }

  /** The wrapper computes no length, yet when the original had a stored
      Content-Length the wrapper reports that uncompressed length until it
      is written. */
  lemma StaleLengthBeforeSerialization(content: Content, compressor: Compressor, n: nat)
    requires DistinctNames(content.headers)
    requires StoredLength(content.headers) == Some(n)
    ensures TryComputeLength(Wrap(content, compressor)).None?
    ensures ReadContentLength(Wrap(content, compressor)) == Ok((Some(n), Wrap(content, compressor)))
  {
    WrapperHeadersEffect(content.headers, compressor.encodingType, ContentLength);
    KnownNames();
    assert !SameName(ContentLength, ContentEncoding);
  }

  // ---------------------------------------------------------------------
  // Writing
  // ---------------------------------------------------------------------

  /** Writing to a null stream is refused. */
  lemma NullStreamRefused(c: Content)
    requires c.body.LegacyCompressed?
    ensures SerializeToStream(c, None) == Err(ArgumentNull("stream"))
  {
  }

  /** Writing a fresh wrapper over readable content appends the encoding of
      the original's bytes, sets Content-Length to the encoded size and
      disposes the original, so the wrapper cannot be written twice. */
  lemma SerializeWritesEncoding(content: Content, compressor: Compressor, s: Stream)
    requires Live(content) && s.Valid()
    ensures SerializeToStream(Wrap(content, compressor), Some(s)).Ok?
    ensures SerializeToStream(Wrap(content, compressor), Some(s)).value.0 == Write(s, compressor.deflate(Payload(content)))
    ensures StoredLength(SerializeToStream(Wrap(content, compressor), Some(s)).value.1.headers)
              == Some(|compressor.deflate(Payload(content))|)
    ensures SerializeToStream(Wrap(content, compressor), Some(s)).value.1.body.original.disposed
    ensures Serialize(SerializeToStream(Wrap(content, compressor), Some(s)).value.1).Err?
  {
    var w := Wrap(content, compressor);
    ReadAsStreamLive(content);
    var o' := ReadAsStream(content).value.1;
    var z := compressor.deflate(Payload(content));
    SetContentLengthStores(w.(body := LegacyCompressed(Dispose(o'), compressor)), Some(|z|));
    var w' := SerializeToStream(w, Some(s)).value.1;
    DisposedFails(w'.body.original);
  }
}
