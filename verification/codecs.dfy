/** Streams and the compressor adapter (`BaseCompressor`). The gzip and
    deflate algorithms themselves are not modelled: a compressor carries its
    encoding token and a pair of uninterpreted codec functions. `Compress`
    pushes the whole source through the encoder into an in-memory buffer,
    copies the buffer to the destination and returns its length;
    `Decompress` pumps the decoded source into the destination. */
module Codecs {
  import opened Wrappers
  import opened Errors

  type byte = x: int | 0 <= x < 256
  type Bytes = seq<byte>

  /** An `ICompressor`: its `EncodingType` token, the name of its type (used
      in error messages), and the codec it wraps. `inflate` is None on
      input that is not valid compressed data. */
  datatype Compressor = Compressor(
    encodingType: string,
    typeName: string,
    deflate: Bytes -> Bytes,
    inflate: Bytes -> Option<Bytes>)

  /** The codec decodes what it encodes; a hypothesis of the lemmas that need it. */
  ghost predicate RoundTrips(c: Compressor) {
    forall b :: c.inflate(c.deflate(b)) == Some(b)
  }

  /** A seekable in-memory stream (`MemoryStream`): its bytes and the position. */
  datatype Stream = Stream(data: Bytes, position: nat) {
    predicate Valid() {
      position <= |data|
    }
  }

  /** The bytes a read from the current position returns. */
  function Remaining(s: Stream): Bytes
    requires s.Valid()
  {
    s.data[s.position..]
  }

  /** `Position = 0`. */
  function Rewind(s: Stream): (r: Stream)
    requires s.Valid()
    ensures r.Valid() && Remaining(r) == s.data
  {
    s.(position := 0)
  }

  /** A fresh, empty stream. */
  const Empty: Stream := Stream([], 0)

  /** `Write(b)`: overwrites from the position on, extends past the end,
      and leaves the position after the written bytes. */
  function Write(s: Stream, b: Bytes): (r: Stream)
    requires s.Valid()
    ensures r.Valid() && r.position == s.position + |b|
  {
    var rest := if s.position + |b| < |s.data| then s.data[s.position + |b|..] else [];
    Stream(s.data[..s.position] + b + rest, s.position + |b|)
  }

  /** What a write leaves in the stream: the bytes before the position, then `b`. */
  lemma WriteContents(s: Stream, b: Bytes)
    requires s.Valid()
    ensures |Write(s, b).data| == if s.position + |b| < |s.data| then |s.data| else s.position + |b|
    ensures Write(s, b).data[..s.position + |b|] == s.data[..s.position] + b
    ensures s.position + |b| < |s.data| ==> Write(s, b).data[s.position + |b|..] == s.data[s.position + |b|..]
  {
  }

  lemma WriteNothing(s: Stream)
    requires s.Valid()
    ensures Write(s, []) == s
  {
    assert s.data[..s.position] + [] + s.data[s.position..] == s.data;
  }

  /** Two consecutive writes are one write of both chunks. */
  lemma WriteWrite(s: Stream, a: Bytes, b: Bytes)
    requires s.Valid()
    ensures Write(Write(s, a), b) == Write(s, a + b)
  {
    var p := s.position;
    var d := s.data;
    var w := Write(s, a);
    var lhs := Write(w, b);
    var rhs := Write(s, a + b);
    WriteContents(s, a);
    WriteContents(w, b);
    WriteContents(s, a + b);
    assert w.data[..p + |a|] == d[..p] + a;
    assert lhs.data[..p + |a| + |b|] == d[..p] + a + b by {
      assert w.data[..w.position] == d[..p] + a;
    }
    if p + |a| + |b| < |d| {
      assert lhs.data == lhs.data[..p + |a| + |b|] + d[p + |a| + |b|..];
      assert rhs.data == rhs.data[..p + |a| + |b|] + d[p + |a| + |b|..];
    } else {
      assert lhs.data == lhs.data[..p + |a| + |b|];
      assert rhs.data == rhs.data[..p + |a| + |b|];
    }
  }

  /** Writing into a fresh stream: the stream holds exactly the bytes. */
  lemma WriteEmpty(b: Bytes)
    ensures Write(Empty, b).data == b
  {
  }

  /** The chunk size of `Stream.CopyToAsync`. */
  const BufferSize: nat := 81920

  /** `source.CopyToAsync(destination)`: reads the source to its end in
      chunks and writes each chunk to the destination. */
  method CopyStream(source: Stream, destination: Stream) returns (source': Stream, destination': Stream)
    requires source.Valid() && destination.Valid()
    ensures source' == source.(position := |source.data|)
    ensures destination'.Valid() && destination' == Write(destination, Remaining(source))
  {
    source' := source;
    destination' := destination;
    WriteNothing(destination);
    while source'.position < |source'.data|
      invariant source'.data == source.data
      invariant source.position <= source'.position <= |source.data|
      invariant destination'.Valid()
      invariant destination' == Write(destination, source.data[source.position..source'.position])
      decreases |source.data| - source'.position
    {
      var n := if |source'.data| - source'.position < BufferSize then |source'.data| - source'.position else BufferSize;
      var from := source'.position;
      var chunk := source.data[from..from + n];
      WriteWrite(destination, source.data[source.position..from], chunk);
      assert source.data[source.position..from] + chunk == source.data[source.position..from + n];
      destination' := Write(destination', chunk);
      source' := source'.(position := from + n);
    }
  }

  /** `BaseCompressor.Compress(source, destination)`: the encoder consumes the
      source to its end into a fresh buffer; the buffer is rewound, read out
      and copied to the destination; its length is returned. */
  method Compress(c: Compressor, source: Stream, destination: Stream) returns (source': Stream, destination': Stream, length: nat)
    requires source.Valid() && destination.Valid()
    ensures source' == source.(position := |source.data|)
    ensures destination'.Valid() && destination' == Write(destination, c.deflate(Remaining(source)))
    ensures length == |c.deflate(Remaining(source))|
  {
    // What the compression stream receives from `source.CopyToAsync(gzip)`.
    var fed: Stream;
    source', fed := CopyStream(source, Empty);
    WriteEmpty(Remaining(source));
    // Closing the compression stream flushes the encoded bytes into the buffer.
    var mem := Write(Empty, c.deflate(fed.data));
    WriteEmpty(c.deflate(fed.data));
    mem := Rewind(mem);
    var compressed := mem.data;
    var outStream := Stream(compressed, 0);
    var drained: Stream;
    drained, destination' := CopyStream(outStream, destination);
    length := |mem.data|;
  }

  /** `BaseCompressor.Decompress(source, destination)`: wraps the source in a
      decoder and pumps it into the destination; undecodable input fails. */
  method Decompress(c: Compressor, source: Stream, destination: Stream) returns (r: Result<Stream, Error>)
    requires source.Valid() && destination.Valid()
    ensures c.inflate(Remaining(source)).None? ==> r == Err(InvalidData)
    ensures c.inflate(Remaining(source)).Some? ==> r == Ok(Write(destination, c.inflate(Remaining(source)).value))
  {
    var decoded := c.inflate(Remaining(source));
    if decoded.None? {
      return Err(InvalidData);
    }
    var decompressed := Stream(decoded.value, 0);
    var drained: Stream;
    var destination': Stream;
    drained, destination' := CopyStream(decompressed, destination);
    return Ok(destination');
  }

  /** End to end: compressing into a fresh stream and decompressing the
      result back yields the original bytes when the codec round-trips. */
  method RoundTrip(c: Compressor, data: Bytes) returns (r: Result<Bytes, Error>)
    requires RoundTrips(c)
    ensures r == Ok(data)
  {
    var src, compressed, n := Compress(c, Stream(data, 0), Empty);
    WriteEmpty(c.deflate(data));
    var decompressed := Decompress(c, Rewind(compressed), Empty);
    assert c.inflate(c.deflate(data)) == Some(data);
    WriteEmpty(data);
    return Ok(decompressed.value.data);
  }
}
