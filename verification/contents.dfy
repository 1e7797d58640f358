/** The parts of `HttpContent` the handlers rely on: what a body serializes
    to, buffering, reading, the computed Content-Length, and disposal. A body
    is either a plain one (`StringContent`, `ByteArrayContent`,
    `StreamContent`) or one of the two compressing wrappers, which hold the
    content they wrap. */
module Contents {
  import opened Wrappers
  import opened Errors
  import opened Headers
  import opened Codecs

  /** The plain content types modelled: `StringContent`, `ByteArrayContent`
      and `StreamContent` over a stream that can or cannot seek. */
  datatype Kind = StringContent | ByteArrayContent | StreamContent(seekable: bool)

  datatype Body =
    | Raw(kind: Kind, data: Bytes)
      /** The wrapper of the current library (`Core.Models.CompressedContent`). */
    | Compressed(original: Content, compressor: Compressor)
      /** The wrapper of the legacy library (`Models.CompressedContent`). */
    | LegacyCompressed(original: Content, compressor: Compressor)

  /** A content object: its body, its header store, whether the
      Content-Length setter has been called, the buffer filled by
      `LoadIntoBufferAsync`, and whether it has been disposed. */
  datatype Content = Content(body: Body, headers: Headers, lengthSet: bool, buffer: Option<Bytes>, disposed: bool)

  /** A fresh content object over a plain body. */
  function Plain(kind: Kind, data: Bytes, headers: Headers): (c: Content)
    ensures c.body.Raw? && !c.disposed && c.buffer.None? && !c.lengthSet
  {
    Content(Raw(kind, data), headers, false, None, false)
  }

  /** `new StreamContent(stream)` over an in-memory stream: the content is
      what can be read from the stream's current position. */
  function StreamContentOf(s: Stream, headers: Headers): (c: Content)
    requires s.Valid()
    ensures c.body == Raw(StreamContent(true), Remaining(s))
  {
    Plain(StreamContent(true), Remaining(s), headers)
  }

  /** The bytes a content stands for: the plain bytes, or the encoding of
      what the wrapped content stands for. */
  function Payload(c: Content): Bytes {
    match c.body
    case Raw(_, data) => data
    case Compressed(o, comp) => comp.deflate(Payload(o))
    case LegacyCompressed(o, comp) => comp.deflate(Payload(o))
  }

  /** Content that can still be read: it is not disposed, a buffer holds
      what the content stands for, and an unbuffered wrapper wraps content
      that can still be read. */
  predicate Live(c: Content) {
    && !c.disposed
    && (c.buffer.Some? ==> c.buffer.value == Payload(c))
    && (c.buffer.None? ==>
          match c.body
          case Raw(_, _) => true
          case Compressed(o, _) => Live(o)
          case LegacyCompressed(o, _) => Live(o))
  }

  /** `TryComputeLength`: plain bodies know their size (a stream only when
      it can seek); both wrappers report that they cannot tell. */
  function TryComputeLength(c: Content): (r: Option<nat>)
    ensures r.Some? ==> c.body.Raw? && r.value == |c.body.data|
    ensures c.body.Raw? && !c.body.kind.StreamContent? ==> r == Some(|c.body.data|)
    ensures c.body.Raw? && c.body.kind.StreamContent? ==> (r.Some? <==> c.body.kind.seekable)
  {
    match c.body
    case Raw(StreamContent(seekable), data) => if seekable then Some(|data|) else None
    case Raw(_, data) => Some(|data|)
    case _ => None
  }

  /** The getter of `Headers.ContentLength`: the stored value if there is
      one; nothing if the setter was called; otherwise the buffer length or
      the computed length, which is then stored in the header. Computing
      the length of disposed content throws. */
  function ReadContentLength(c: Content): (r: Result<(Option<nat>, Content), Error>)
    ensures Has(c.headers, ContentLength) ==> r == Ok((StoredLength(c.headers), c))
    ensures r.Ok? ==> r.value.1.body == c.body && r.value.1.buffer == c.buffer && r.value.1.disposed == c.disposed
    ensures r.Err? <==> !Has(c.headers, ContentLength) && !c.lengthSet && c.disposed
  {
    if Has(c.headers, ContentLength) then Ok((StoredLength(c.headers), c))
    else if c.lengthSet then Ok((None, c))
    else if c.disposed then Err(ObjectDisposed)
    else
      var computed := if c.buffer.Some? then Some(|c.buffer.value|) else TryComputeLength(c);
      match computed
      case None => Ok((None, c))
      case Some(n) => Ok((Some(n), c.(headers := Set(c.headers, ContentLength, Some(Num(n))))))
  }

  /** The Content-Length setter: stores the value, or removes the header
      when it is null, and remembers that it was set. */
  function SetContentLength(c: Content, n: Option<nat>): (r: Content)
    ensures r.lengthSet && r.body == c.body && r.buffer == c.buffer && r.disposed == c.disposed
  {
    c.(headers := Set(c.headers, ContentLength, if n.Some? then Some(Num(n.value)) else None), lengthSet := true)
  }

  /** After the setter, the getter's stored value is what was set. */
  lemma SetContentLengthStores(c: Content, n: Option<nat>)
    requires n.None? ==> DistinctNames(c.headers)
    ensures StoredLength(SetContentLength(c, n).headers) == n
  {
    match n {
      case None =>
        SetEffect(c.headers, ContentLength, None, ContentLength);
      case Some(k) =>
        match Find(c.headers, ContentLength) {
          case None => FindAfterAppend(c.headers, Field(ContentLength, [Num(k)]), ContentLength);
          case Some(i) => FindAfterUpdate(c.headers, i, Field(c.headers[i].name, [Num(k)]), ContentLength);
        }
    }
  }

  /** `Dispose()`. The current wrapper disposes the content it wraps; the
      legacy wrapper does not. */
  function Dispose(c: Content): (r: Content)
    ensures r.disposed && r.headers == c.headers
    ensures c.body.Raw? || c.body.LegacyCompressed? ==> r.body == c.body
    ensures c.body.Compressed? ==> r.body.Compressed? && r.body.original.disposed
  {
    match c.body
    case Compressed(o, comp) => c.(body := Compressed(Dispose(o), comp), disposed := true)
    case _ => c.(disposed := true)
  }

  /** `SerializeToStreamAsync` onto a non-null stream: the bytes written and
      the content's state afterwards. The current wrapper reads the wrapped
      content as a byte array, writes its encoding and sets Content-Length
      to the encoded size; the legacy wrapper reads it as a stream, does
      the same, and disposes it. */
  function Serialize(c: Content): (r: Result<(Bytes, Content), Error>)
    ensures c.body.Raw? ==> r.Ok?
    ensures r.Ok? ==> r.value.1.buffer == c.buffer && r.value.1.disposed == c.disposed && r.value.1.body.Raw? == c.body.Raw?
    decreases c, 0
  {
    match c.body
    case Raw(_, data) => Ok((data, c))
    case Compressed(o, comp) =>
      (match ReadAsByteArray(o)
       case Err(e) => Err(e)
       case Ok((bytes, o')) =>
         var z := comp.deflate(bytes);
         Ok((z, SetContentLength(c.(body := Compressed(o', comp)), Some(|z|)))))
    case LegacyCompressed(o, comp) =>
      (match ReadAsStream(o)
       case Err(e) => Err(e)
       case Ok((bytes, o')) =>
         var z := comp.deflate(bytes);
         Ok((z, SetContentLength(c.(body := LegacyCompressed(Dispose(o'), comp)), Some(|z|)))))
  }

  /** A failure while serializing into the buffer surfaces wrapped in an
      `HttpRequestException` when it is an I/O or disposal failure. */
  function StreamCopyError(e: Error): Error {
    if e == ObjectDisposed then HttpRequest(e) else e
  }

  /** `LoadIntoBufferAsync()`: serializes the content once into its buffer. */
  function LoadIntoBuffer(c: Content): (r: Result<Content, Error>)
    ensures r.Ok? ==> r.value.buffer.Some?
    decreases c, 1
  {
    if c.disposed then Err(ObjectDisposed)
    else if c.buffer.Some? then Ok(c)
    else match Serialize(c)
      case Err(e) => Err(StreamCopyError(e))
      case Ok((bytes, c')) => Ok(c'.(buffer := Some(bytes)))
  }

  /** `ReadAsByteArrayAsync()`: buffers, then returns the buffer. */
  function ReadAsByteArray(c: Content): (r: Result<(Bytes, Content), Error>)
    ensures c.disposed ==> r == Err(ObjectDisposed)
    ensures r.Ok? ==> r.value.1.buffer == Some(r.value.0) && !r.value.1.disposed
    decreases c, 2
  {
    match LoadIntoBuffer(c)
    case Err(e) => Err(e)
    case Ok(c') => Ok((c'.buffer.value, c'))
  }

  /** `ReadAsStreamAsync()`, as the bytes the returned stream yields: the
      buffer if there is one; for plain content, a stream over its bytes
      (the inner stream of a stream content, a memory stream over those of
      string and byte-array content), which buffers nothing; and for a
      wrapper, the buffer filled on demand. */
  function ReadAsStream(c: Content): (r: Result<(Bytes, Content), Error>)
    ensures c.disposed ==> r == Err(ObjectDisposed)
    ensures !c.disposed && c.buffer.Some? ==> r == Ok((c.buffer.value, c))
    ensures r.Ok? && (c.buffer.Some? || c.body.Raw?) ==> r.value.1 == c
    decreases c, 3
  {
    if c.disposed then Err(ObjectDisposed)
    else if c.buffer.Some? then Ok((c.buffer.value, c))
    else if c.body.Raw? then Ok((c.body.data, c))
    else ReadAsByteArray(c)
  }

  // ---------------------------------------------------------------------
  // What reading and buffering do, stated against `Payload` and `Live`
  // ---------------------------------------------------------------------

  /** Serializing unbuffered live content writes what it stands for. The
      current wrapper stays readable; the legacy wrapper has disposed what
      it wraps and cannot be serialized again. */
  lemma {:induction false} SerializeLive(c: Content)
    requires Live(c) && c.buffer.None?
    ensures Serialize(c).Ok?
    ensures Serialize(c).value.0 == Payload(c)
    ensures Payload(Serialize(c).value.1) == Payload(c)
    ensures !Serialize(c).value.1.disposed && Serialize(c).value.1.buffer.None?
    ensures c.body.Raw? ==> Serialize(c).value.1 == c
    ensures !c.body.LegacyCompressed? ==> Live(Serialize(c).value.1)
    ensures c.body.LegacyCompressed? ==> Serialize(c).value.1.body.original.disposed
    decreases c, 0
  {
    match c.body {
      case Raw(_, _) =>
      case Compressed(o, comp) =>
        ReadAsByteArrayLive(o);
      case LegacyCompressed(o, comp) =>
        ReadAsStreamLive(o);
        DisposeKeepsPayload(ReadAsStream(o).value.1);
    }
  }

  lemma {:induction false} LoadIntoBufferLive(c: Content)
    requires Live(c)
    ensures LoadIntoBuffer(c).Ok?
    ensures LoadIntoBuffer(c).value.buffer == Some(Payload(c))
    ensures Payload(LoadIntoBuffer(c).value) == Payload(c)
    ensures Live(LoadIntoBuffer(c).value)
    ensures c.body.Raw? ==> LoadIntoBuffer(c).value == c.(buffer := Some(Payload(c)))
    decreases c, 1
  {
    if c.buffer.None? {
      SerializeLive(c);
    }
  }

  lemma {:induction false} ReadAsByteArrayLive(c: Content)
    requires Live(c)
    ensures ReadAsByteArray(c).Ok?
    ensures ReadAsByteArray(c).value.0 == Payload(c)
    ensures Payload(ReadAsByteArray(c).value.1) == Payload(c)
    ensures Live(ReadAsByteArray(c).value.1)
    decreases c, 2
  {
    LoadIntoBufferLive(c);
  }

  lemma {:induction false} ReadAsStreamLive(c: Content)
    requires Live(c)
    ensures ReadAsStream(c).Ok?
    ensures ReadAsStream(c).value.0 == Payload(c)
    ensures Payload(ReadAsStream(c).value.1) == Payload(c)
    ensures Live(ReadAsStream(c).value.1)
    decreases c, 3
  {
    if c.buffer.None? && !(c.body.Raw? && c.body.kind.StreamContent?) {
      ReadAsByteArrayLive(c);
    }
  }

  lemma DisposeKeepsPayload(c: Content)
    ensures Payload(Dispose(c)) == Payload(c)
  {
  }

  /** Disposed content cannot be buffered or read. */
  lemma DisposedFails(c: Content)
    requires c.disposed
    ensures LoadIntoBuffer(c) == Err(ObjectDisposed)
    ensures ReadAsByteArray(c) == Err(ObjectDisposed)
    ensures ReadAsStream(c) == Err(ObjectDisposed)
  {
  }

  /** A wrapper whose inner content was disposed fails to buffer with the
      disposal wrapped in an `HttpRequestException`. */
  lemma WrappedDisposedFails(c: Content)
    requires !c.disposed && c.buffer.None? && c.body.Compressed?
    requires c.body.original.disposed
    ensures LoadIntoBuffer(c) == Err(HttpRequest(ObjectDisposed))
  {
    var o := c.body.original;
    assert LoadIntoBuffer(o) == Err(ObjectDisposed);
    assert ReadAsByteArray(o) == Err(ObjectDisposed);
    assert Serialize(c) == Err(ObjectDisposed);
  }

  /** After buffering, the Content-Length getter reports the buffered size
      unless a value is stored or the setter was called. */
  lemma LengthAfterBuffering(c: Content)
    requires !c.disposed && c.buffer.Some?
    requires !Has(c.headers, ContentLength) && !c.lengthSet
    ensures ReadContentLength(c).Ok?
    ensures ReadContentLength(c).value.0 == Some(|c.buffer.value|)
    ensures StoredLength(ReadContentLength(c).value.1.headers) == Some(|c.buffer.value|)
  {
    var n := |c.buffer.value|;
    FindAfterAppend(c.headers, Field(ContentLength, [Num(n)]), ContentLength);
  }

  /** The getter is idempotent: a second read reports the same length and
      leaves the content as the first read left it. */
  lemma ReadContentLengthIdempotent(c: Content)
    requires ReadContentLength(c).Ok?
    ensures ReadContentLength(ReadContentLength(c).value.1) == ReadContentLength(c)
  {
    if !Has(c.headers, ContentLength) && !c.lengthSet {
      var computed := if c.buffer.Some? then Some(|c.buffer.value|) else TryComputeLength(c);
      if computed.Some? {
        SetContentLengthStores(c, computed);
      }
    }
  }

  /** The failures reading raises: the content, or content it wraps, was
      disposed, surfacing as is or as a stream-copy failure. */
  predicate DisposalError(e: Error) {
    e == ObjectDisposed || e == HttpRequest(ObjectDisposed)
  }

  /** Serializing fails only on disposal. */
  lemma {:induction false} SerializeErrors(c: Content)
    ensures Serialize(c).Err? ==> DisposalError(Serialize(c).error)
    decreases c, 0
  {
    match c.body {
      case Raw(_, _) =>
      case Compressed(o, _) => ReadAsByteArrayErrors(o);
      case LegacyCompressed(o, _) => ReadAsStreamErrors(o);
    }
  }

  /** Buffering fails only on disposal. */
  lemma {:induction false} LoadIntoBufferErrors(c: Content)
    ensures LoadIntoBuffer(c).Err? ==> DisposalError(LoadIntoBuffer(c).error)
    decreases c, 1
  {
    if !c.disposed && c.buffer.None? {
      SerializeErrors(c);
    }
  }

  /** Reading as a byte array fails only on disposal. */
  lemma {:induction false} ReadAsByteArrayErrors(c: Content)
    ensures ReadAsByteArray(c).Err? ==> DisposalError(ReadAsByteArray(c).error)
    decreases c, 2
  {
    LoadIntoBufferErrors(c);
  }

  /** Reading as a stream fails only on disposal. */
  lemma {:induction false} ReadAsStreamErrors(c: Content)
    ensures ReadAsStream(c).Err? ==> DisposalError(ReadAsStream(c).error)
    decreases c, 3
  {
    if !c.disposed && c.buffer.None? && !(c.body.Raw? && c.body.kind.StreamContent?) {
      ReadAsByteArrayErrors(c);
    }
  }

  /** The getter only ever stores a Content-Length: a well-formed store
      stays well-formed and every other header keeps its values. */
  lemma ReadContentLengthHeaders(c: Content, m: string)
    requires ReadContentLength(c).Ok? && WellFormed(c.headers)
    ensures WellFormed(ReadContentLength(c).value.1.headers)
    ensures !SameName(m, ContentLength) ==> Values(ReadContentLength(c).value.1.headers, m) == Values(c.headers, m)
    ensures ReadContentLength(c).value.1.lengthSet == c.lengthSet
  {
    if !Has(c.headers, ContentLength) && !c.lengthSet {
      var computed := if c.buffer.Some? then Some(|c.buffer.value|) else TryComputeLength(c);
      if computed.Some? {
        KnownNames();
        SetWellFormed(c.headers, ContentLength, Num(computed.value));
        if !SameName(m, ContentLength) {
          SetKeepsOthers(c.headers, ContentLength, Num(computed.value), m);
        }
      }
    }
  }
}
