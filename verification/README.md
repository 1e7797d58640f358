# Compression message handlers, modelled in Dafny

This project models the HTTP compression handlers of
Microsoft.AspNet.WebApi.MessageHandlers.Compression. Two generations are covered:

- **The current library** (`src/Core`, `src/Server`, `src/Client`):
  - `BaseServerCompressionHandler` and `ServerCompressionHandler`, which decompress request bodies and compress responses;
  - `ClientCompressionHandler`, which compresses request bodies and decompresses responses;
  - the `CompressedContent` wrapper;
  - `HttpContentOperations.DecompressContent`;
  - the header copy `HttpContentHeaderExtensions.CopyTo`;
  - the `BaseCompressor` stream adapter.
- **The legacy library** (`src/Microsoft.AspNet.WebApi.MessageHandlers.Compression`):
  - its server and client handlers;
  - the response-only `CompressionHandler` and `DecompressionHandler`;
  - its own `CompressedContent`, `HttpContentOperations` and `BaseCompressor`.

The model is functional. Nothing in it is mutable.

- **Requests and responses** are datatypes. A response with no content is an `Option`.
- **Headers** are a case-insensitive store of typed values (`headers.dfy`).
  - `Content-Length` is a number-valued, single-valued header.
  - Validated adds refuse a second value for a single-valued header.
  - `TryAddWithoutValidation` appends raw values.
- **A content** (`contents.dfy`) is one of:
  - a plain body: string, byte array, or a seekable or non-seekable stream;
  - the current wrapper;
  - the legacy wrapper.

  It also carries its header store, whether the Content-Length setter was called, its buffer, and whether it is disposed.
- **.NET content operations modelled:**
  - The Content-Length getter returns the stored value, otherwise the buffer or computed length, and memoizes it into the header store.
  - `LoadIntoBufferAsync`, `ReadAsByteArrayAsync`, `ReadAsStreamAsync` and `Dispose` are modelled with their failure on disposed content.
- **A compressor** is its token, its type name, and two uninterpreted codec functions.
  - `deflate` encodes.
  - `inflate` decodes, or reports invalid data.
- **Errors** are a datatype. A failure the handlers rethrow wrapped keeps the message, for example "Unable to compress response using compressor 'X'", and the inner error.

**The Accept-Encoding query:**
- a join of entries with positive quality to compressors on lower-cased tokens;
- a stable descending sort on quality;
- `FirstOrDefault`.

It is modelled literally (`Negotiation.Negotiate`) and related to a declarative rule (`Negotiation.Chosen`): the chosen pair has maximal quality and comes first in join order among pairs of that quality.

**Every handler is one module.** It holds:
- its configuration;
- its constructors, with the default threshold 860, or 0 for the legacy client;
- the request and response halves of `SendAsync` as functions;
- lemmas about the decisions.

The inner handler is a function parameter.

**`exchange.dfy` puts each library's client and server handlers back to back.** The lemmas show that what one side sends is decompressed by the other side back to the original bytes, whichever way the threshold decided.
- `Exchange.Transmit` stands for the wire: the receiver gets the bytes the sent content serializes to, under the headers it then carries.
- It is a modelling device, not part of the library.

## Model

| member | source | states |
|---|---|---|
| Text.TryParseBool | src/Server/ServerCompressionHandler.cs:100-103 | `bool.TryParse`: true (false) exactly when the text is "true" ("false") in any letter case with only white space (`Char.IsWhiteSpace`) and NUL before and after it; otherwise no value |
| Text.TrimStart | src/Server/ServerCompressionHandler.cs:101 | the leading trim removes the longest prefix of white space and NUL: everything dropped is trimmable and what is kept does not start with a trimmable character |
| Text.TrimEnd | src/Server/ServerCompressionHandler.cs:101 | the trailing trim removes the longest suffix of white space and NUL |
| Text.TrimmedIsPaddedWord | src/Server/ServerCompressionHandler.cs:101 | trimming both ends yields a word up to letter case exactly when the text is that word padded with white space and NUL |
| Text.ParseBoolText | src/Server/ServerCompressionHandler.cs:98-103 | a property value written from a boolean parses back to that boolean |
| Text.NoBreakSpaceTrimmed | src/Server/ServerCompressionHandler.cs:101 | Unicode white space is trimmed too: "true" followed by a no-break space parses as true, and "False" between an ideographic space and a NUL as false |
| Headers.AddValueRejects | src/Core/Extensions/HttpContentHeaderExtensions.cs:49-54 | a validated add fails exactly when the value is not acceptable for the header or a single-valued header already holds one |
| Headers.AddValue | src/Core/Extensions/HttpContentHeaderExtensions.cs:49 | one validated add: refused for an unacceptable value or a second value of a single-valued header; otherwise every existing field stays in place under its name, and a field is appended only when the header was absent |
| Headers.AddValuesEffect | src/Core/Extensions/HttpContentHeaderExtensions.cs:49 | adding values to a header appends those that are accepted, and every other header keeps its values |
| Headers.SetEffect | src/Microsoft.AspNet.WebApi.MessageHandlers.Compression/HttpContentOperations.cs:69-87 | assigning a single-valued header replaces its values with the new value, or removes it for null; other headers are untouched |
| Headers.Set | src/Microsoft.AspNet.WebApi.MessageHandlers.Compression/HttpContentOperations.cs:54-87 | a typed setter keeps every field in place and adds one only when the header was absent; assigning null removes the header if present |
| Headers.SetKeepsOthers | src/Core/Models/CompressedContent.cs:80 | storing Content-Length leaves every other header's values unchanged |
| Headers.SetWellFormed | src/Core/Models/CompressedContent.cs:80 | storing an acceptable value keeps the header store well-formed |
| Headers.AddRawEffect | src/Microsoft.AspNet.WebApi.MessageHandlers.Compression/Models/CompressedContent.cs:89-92 | `TryAddWithoutValidation` appends all values to the header, validating nothing, and leaves other headers alone |
| HeaderCopy.CopyToEffect | src/Core/Extensions/HttpContentHeaderExtensions.cs:15-56 | for every header name, the value after `CopyTo` is given by the header's own source field, the three switches and the target's values, and headers absent from the source stay as they were |
| HeaderCopy.CopyTo | src/Core/Extensions/HttpContentHeaderExtensions.cs:15-56 | the copy only adds: every target field stays in place under its name (the per-header outcome is `HeaderCopy.CopyToEffect`) |
| HeaderCopy.CopySkipsContentLength | src/Core/Extensions/HttpContentHeaderExtensions.cs:27-30 | with Content-Length handling off, the target's Content-Length is unchanged |
| HeaderCopy.CopySkipsContentEncoding | src/Core/Extensions/HttpContentHeaderExtensions.cs:32-35 | with Content-Encoding handling off, the target's Content-Encoding is unchanged |
| HeaderCopy.CopyKeepsChangedValues | src/Core/Extensions/HttpContentHeaderExtensions.cs:37-46 | without changed-value handling, a target header holding a value that differs from the source's is preserved |
| HeaderCopy.CopyIntoAbsent | src/Core/Extensions/HttpContentHeaderExtensions.cs:23-49 | a header the target lacks arrives with all the source's values unless its switch excludes it |
| HeaderCopy.CopyLeavesOthers | src/Core/Extensions/HttpContentHeaderExtensions.cs:23-55 | target headers the source does not hold are untouched |
| HeaderCopy.CopyDuplicatesEqualValues | src/Core/Extensions/HttpContentHeaderExtensions.cs:42-49 | equal values do not count as a change, so copying "gzip" onto "gzip" yields "gzip" twice |
| HeaderCopy.CopyContinuesAfterRejection | src/Core/Extensions/HttpContentHeaderExtensions.cs:51-54 | a header whose add throws is skipped and the loop goes on to copy the next header |
| Codecs.CopyStream | src/Core/Compressors/BaseCompressor.cs:101-104 | `CopyToAsync` in chunks: the destination receives exactly the source's remaining bytes and the source ends at its end |
| Codecs.Compress | src/Core/Compressors/BaseCompressor.cs:59-78 | the destination receives exactly the encoding of the source's remaining bytes, and the returned length is the encoded size |
| Codecs.Decompress | src/Core/Compressors/BaseCompressor.cs:86-93 | the destination receives the decoding of the whole remaining source, or the call fails with invalid data |
| Codecs.RoundTrip | src/Microsoft.AspNet.WebApi.MessageHandlers.Compression/Compressors/BaseCompressor.cs:42-76 | compressing into a fresh stream and decompressing the rewound result gives back the input bytes when the codec round-trips |
| Contents.ReadContentLengthIdempotent | src/Server/ServerCompressionHandler.cs:178 | reading Content-Length a second time reports the same value and changes nothing more |
| Contents.ReadContentLength | src/Server/ServerCompressionHandler.cs:178 | the Content-Length getter reports a stored header as it is; it fails only on disposed content with neither a stored header nor a setter call, and it changes neither body, buffer nor disposal |
| Contents.LengthAfterBuffering | src/Client/ClientCompressionHandler.cs:149-161 | after buffering, a content without a stored length reports, and stores, the size of its buffer |
| Contents.SetContentLengthStores | src/Core/Models/CompressedContent.cs:80 | after the setter, the getter's stored value is exactly what was set |
| Contents.LoadIntoBufferLive | src/Server/ServerCompressionHandler.cs:142 | buffering readable content succeeds, the buffer holds what the content stands for, and plain content is otherwise unchanged |
| Contents.LoadIntoBuffer | src/Server/ServerCompressionHandler.cs:142 | a successful `LoadIntoBufferAsync` leaves the content buffered |
| Contents.Serialize | src/Core/Models/CompressedContent.cs:67-82 | plain content always serializes; serializing never changes the buffer or disposal state, nor whether the body is plain |
| Contents.ReadAsByteArray | src/Core/HttpContentOperations.cs:25 | `ReadAsByteArrayAsync` fails with an object-disposed error on disposed content, and on success returns the content buffered with exactly the bytes it returns |
| Contents.ReadAsStream | src/Microsoft.AspNet.WebApi.MessageHandlers.Compression/HttpContentOperations.cs:26 | `ReadAsStreamAsync` fails on disposed content, returns an existing buffer as it is, and reads plain content (string, byte array or stream) without buffering it |
| Contents.Dispose | src/Core/Models/CompressedContent.cs:99-105 | disposing marks the content disposed and keeps its headers; the current wrapper also disposes its original |
| Contents.DisposedFails | src/Microsoft.AspNet.WebApi.MessageHandlers.Compression/ServerCompressionHandler.cs:103-118 | buffering or reading disposed content fails with an object-disposed error |
| Contents.LoadIntoBufferErrors | src/Client/ClientCompressionHandler.cs:98-117 | every failure of buffering is a disposal failure, bare or wrapped as an HTTP request failure |
| Contents.TryComputeLength | src/Core/Models/CompressedContent.cs:54-59 | only plain content computes a length, always the size of its bytes: string and byte-array content always do, a stream content exactly when it is seekable, and the wrappers never |
| Contents.ReadContentLengthHeaders | src/Client/ClientCompressionHandler.cs:149 | reading Content-Length stores at most that header: every other header keeps its values and the store stays well-formed |
| Contents.SerializeLive | src/Core/Models/CompressedContent.cs:75-81 | readable content serializes to exactly the bytes it stands for |
| Contents.ReadAsByteArrayLive | src/Core/HttpContentOperations.cs:25 | reading readable content as a byte array yields the bytes it stands for and leaves it readable |
| Contents.ReadAsStreamLive | src/Microsoft.AspNet.WebApi.MessageHandlers.Compression/HttpContentOperations.cs:26 | reading readable content as a stream yields the bytes it stands for and leaves it readable |
| Contents.WrappedDisposedFails | src/Core/Models/CompressedContent.cs:75 | buffering a wrapper whose original is disposed fails with the disposal error wrapped as an HTTP request failure |
| CompressedContent.New | src/Core/Models/CompressedContent.cs:31-47 | a null content or null compressor is refused with an argument-null error naming it; otherwise the wrapper wraps both |
| CompressedContent.WrapperHeadersEffect | src/Core/Models/CompressedContent.cs:87-93 | the wrapper has every header of the original except Content-Length, and Content-Encoding gains the token at its end |
| CompressedContent.WrapperEncodings | src/Core/Models/CompressedContent.cs:89-92 | the wrapper's encodings are the original's followed by the compressor's token |
| CompressedContent.LengthUnknownBeforeSerialization | src/Core/Models/CompressedContent.cs:54-59 | before it is written the wrapper has no Content-Length, computes none, and the getter reports null |
| CompressedContent.NullStreamRefused | src/Core/Models/CompressedContent.cs:69-72 | writing to a null stream fails with an argument-null error |
| CompressedContent.SerializeWritesEncoding | src/Core/Models/CompressedContent.cs:67-82 | writing appends the encoding of all the original's bytes to the stream, and Content-Length becomes the encoded size |
| CompressedContent.DisposeReleasesOriginal | src/Core/Models/CompressedContent.cs:99-105 | disposing the wrapper disposes the original, which can then no longer be read |
| CompressedContent.WrapperRoundTrip | src/Core/Models/CompressedContent.cs:75-81 | the bytes the wrapper writes decode back to the original's bytes when the codec round-trips |
| LegacyCompressedContent.New | src/Microsoft.AspNet.WebApi.MessageHandlers.Compression/Models/CompressedContent.cs:31-47 | null arguments are refused with argument-null errors; otherwise the legacy wrapper wraps both |
| LegacyCompressedContent.CopyAllEffect | src/Microsoft.AspNet.WebApi.MessageHandlers.Compression/Models/CompressedContent.cs:89-92 | copying every header appends the source's values after the target's, header by header |
| LegacyCompressedContent.WrapperHeadersEffect | src/Microsoft.AspNet.WebApi.MessageHandlers.Compression/Models/CompressedContent.cs:87-95 | every original header, Content-Length included, is copied, and Content-Encoding gains the token at its end |
| LegacyCompressedContent.WrapperEncodings | src/Microsoft.AspNet.WebApi.MessageHandlers.Compression/Models/CompressedContent.cs:89-94 | the legacy wrapper's encodings are the original's followed by the token |
| LegacyCompressedContent.StaleLengthBeforeSerialization | src/Microsoft.AspNet.WebApi.MessageHandlers.Compression/Models/CompressedContent.cs:54-59 | the wrapper computes no length, yet reports the original's copied Content-Length until it is written |
| LegacyCompressedContent.NullStreamRefused | src/Microsoft.AspNet.WebApi.MessageHandlers.Compression/Models/CompressedContent.cs:69-72 | writing to a null stream fails with an argument-null error |
| LegacyCompressedContent.SerializeWritesEncoding | src/Microsoft.AspNet.WebApi.MessageHandlers.Compression/Models/CompressedContent.cs:67-82 | writing appends the encoding of the original's bytes, sets Content-Length to the encoded size and disposes the original, so a second write fails |
| ContentOperations.DecompressContent | src/Core/HttpContentOperations.cs:20-39 | a read failure propagates; undecodable bytes fail; otherwise the new stream content holds bytes the codec maps the compressed bytes to |
| ContentOperations.DecompressLive | src/Core/HttpContentOperations.cs:22-33 | readable content whose bytes decode gives content standing for the decoded bytes, and the compressed content stays readable, not disposed |
| ContentOperations.DecompressKeepsHeaders | src/Core/HttpContentOperations.cs:36 | the decompressed content carries every header unchanged, Content-Encoding and the compressed Content-Length included |
| ContentOperations.DecompressInvertsWrapper | src/Core/HttpContentOperations.cs:20-39 | decompressing what the current wrapper writes gives back the wrapped bytes when the codec round-trips |
| ContentOperations.DecompressGarbage | src/Core/HttpContentOperations.cs:25-28 | bytes the codec cannot decode make decompression fail with invalid data |
| ContentOperations.DecompressDisposed | src/Core/HttpContentOperations.cs:25 | disposed compressed content fails with an object-disposed error |
| ContentOperations.DecompressComputesLength | src/Core/HttpContentOperations.cs:31-33 | the decompressed content is a seekable stream, so without a stored length it reports the decoded size |
| ContentOperations.DecompressedImage | src/Tests/Tests/Common/TestFixture.cs:51-59 | a 749-byte gzip body decoding to 4596 bytes still says "gzip" and 749 after decompression and reads as 4596 bytes |
| LegacyContentOperations.DecompressContent | src/Microsoft.AspNet.WebApi.MessageHandlers.Compression/HttpContentOperations.cs:20-38 | read failures propagate, undecodable bytes fail, otherwise the decoded bytes are wrapped and the compressed content is disposed |
| LegacyContentOperations.DecompressLive | src/Microsoft.AspNet.WebApi.MessageHandlers.Compression/HttpContentOperations.cs:20-38 | readable content whose bytes decode gives content standing for the decoded bytes, and the compressed content is disposed |
| LegacyContentOperations.DecompressGarbage | src/Microsoft.AspNet.WebApi.MessageHandlers.Compression/HttpContentOperations.cs:26 | bytes the codec cannot decode make decompression fail with invalid data |
| LegacyContentOperations.ApplyStepsEffect | src/Microsoft.AspNet.WebApi.MessageHandlers.Compression/HttpContentOperations.cs:45-88 | the copy steps act on different headers, so each header ends as its own step leaves it and headers no step names are untouched |
| LegacyContentOperations.CopyHeadersKnown | src/Microsoft.AspNet.WebApi.MessageHandlers.Compression/HttpContentOperations.cs:45-88 | each of the ten listed headers other than Content-Length arrives with the input's values |
| LegacyContentOperations.CopyHeadersDropsOthers | src/Microsoft.AspNet.WebApi.MessageHandlers.Compression/HttpContentOperations.cs:45-88 | no header outside the eleven listed is copied |
| LegacyContentOperations.CopyHeadersLength | src/Microsoft.AspNet.WebApi.MessageHandlers.Compression/HttpContentOperations.cs:69 | the output's Content-Length is set to what the input's getter reports, null included |
| LegacyContentOperations.DecompressHeaders | src/Microsoft.AspNet.WebApi.MessageHandlers.Compression/HttpContentOperations.cs:20-88 | decompressed content keeps the listed headers and a stored Content-Length (the compressed size), and drops every other header |
| LegacyContentOperations.DecompressLosesLength | src/Microsoft.AspNet.WebApi.MessageHandlers.Compression/HttpContentOperations.cs:69 | content that arrived without a length over a non-seekable stream decompresses to content reporting no length, since null was assigned |
| Negotiation.NegotiateSpec | src/Server/ServerCompressionHandler.cs:161-167 | the query returns compressor k exactly when some entry makes (entry, k) the chosen pair: positive quality, same token ignoring case, maximal quality, first in join order |
| Negotiation.Negotiate | src/Server/ServerCompressionHandler.cs:161-167 | the query returns a registered compressor or none (its meaning is stated by `Negotiation.NegotiateSpec` and `Negotiation.NegotiateNone`) |
| Negotiation.NegotiateNone | src/Server/ServerCompressionHandler.cs:161-169 | the query returns nothing exactly when no entry of positive quality names a registered compressor |
| Negotiation.NegotiateSound | src/Server/ServerCompressionHandler.cs:161-167 | a compressor the query returns is that of a chosen pair |
| Negotiation.ChosenUnique | src/Server/ServerCompressionHandler.cs:161-167 | at most one pair satisfies the selection rule, so the query's answer is determined |
| Negotiation.SortFront | src/Client/ClientCompressionHandler.cs:143-144 | the head of the sorted join is the first pair of maximal quality in join order |
| Negotiation.SortKeepsElements | src/Client/ClientCompressionHandler.cs:138-144 | the stable descending sort is a permutation of the join |
| Negotiation.SortDescends | src/Client/ClientCompressionHandler.cs:138-144 | the sorted join is in descending order of quality |
| Negotiation.PrefersHigherQuality | src/Microsoft.AspNet.WebApi.MessageHandlers.Compression/ServerCompressionHandler.cs:140-146 | "gzip;q=0.5, deflate;q=0.9, br" picks deflate |
| Negotiation.TieGoesToEarlierEntry | src/Microsoft.AspNet.WebApi.MessageHandlers.Compression/ClientCompressionHandler.cs:113-119 | with equal qualities the earlier Accept-Encoding entry wins, whatever the compressor order |
| Negotiation.CaseAndRefusal | src/Microsoft.AspNet.WebApi.MessageHandlers.Compression/CompressionHandler.cs:60-66 | "GZIP" matches the gzip compressor; "gzip;q=0" is refused |
| Negotiation.NegotiateWithWildcard | src/Server/BaseServerCompressionHandler.cs:288-299 | a "*" entry selects the first registered compressor whatever the qualities; otherwise the query decides |
| Negotiation.WildcardIgnoresQuality | src/Server/BaseServerCompressionHandler.cs:288-291 | "gzip;q=0, *;q=0" still selects the first compressor |
| Negotiation.FindCompressor | src/Server/ServerCompressionHandler.cs:199 | the lookup returns the first compressor whose token equals the given one ignoring case, and none only when no compressor has it |
| Negotiation.LookupAgreesWithQuery | src/Client/ClientCompressionHandler.cs:184 | the lookup and the query agree on a single entry of default quality |
| Thresholds.MeetsLonger | src/Server/ServerCompressionHandler.cs:178 | a longer body meets any threshold a shorter one meets |
| Thresholds.MeetsLower | src/Server/ServerCompressionHandler.cs:178 | a body that meets a positive threshold meets every smaller positive one |
| Messages.EnabledByDefaultSpec | src/Server/ServerCompressionHandler.cs:91-107 | the default rule allows compression exactly when an entry is literally one of the tokens and the property is absent or a value that parses as true; it throws a null reference exactly when a token is mentioned and the property is present with a null value |
| Messages.PropertyDecides | src/Server/BaseServerCompressionHandler.cs:176-184 | when a token is mentioned, a property written from a boolean decides the rule |
| Messages.UnparsablePropertyDisables | src/Server/BaseServerCompressionHandler.cs:176-184 | a property value that does not parse as a boolean disables compression |
| Messages.NullPropertyThrows | src/Server/BaseServerCompressionHandler.cs:176-181 | a null "compression:Enable" value makes `ToString()` throw once a token is mentioned; without a token it is never read and the rule says no |
| Messages.UppercaseTokenNotRecognized | src/Server/BaseServerCompressionHandler.cs:170-173 | the default rules compare tokens exactly: "GZIP" alone does not enable compression |
| Messages.WildcardRecognizedByBaseOnly | src/Server/BaseServerCompressionHandler.cs:169-173 | "*" enables the base server's rule but not the current server's |
| Messages.EnableRule | src/Server/BaseServerCompressionHandler.cs:167-185 | a given predicate is used as it is; without one, the default rule for the handler's tokens applies |
| Wrapping.ApplyThreshold | src/Server/BaseServerCompressionHandler.cs:313-320 | the threshold step fails only on a positive threshold whose getter fails; it wraps exactly when the gauged length meets the threshold and otherwise keeps the content's state |
| Wrapping.CompressWith | src/Server/ServerCompressionHandler.cs:170-187 | the threshold step inside its try block: a getter failure is rethrown wrapped with a message naming the compressor and direction |
| Wrapping.CompressWithLive | src/Client/ClientCompressionHandler.cs:155-165 | on content that is not disposed the step succeeds and stands for the encoded bytes exactly when the length meets the threshold |
| Wrapping.ApplyThresholdPayload | src/Server/ServerCompressionHandler.cs:174-181 | the result of the threshold step stands for the encoded bytes when it wraps and for the original bytes otherwise |
| Wrapping.ApplyThresholdLive | src/Client/ClientCompressionHandler.cs:156-165 | on content that is not disposed the threshold step succeeds, with the length the getter reports |
| Wrapping.Gauge | src/Server/ServerCompressionHandler.cs:178 | the length compared with the threshold: none for a threshold of at most 0 or a failing getter, otherwise what the getter reports |
| Decoding.DecoderForSpec | src/Client/ClientCompressionHandler.cs:180-184 | the decoder is the first compressor whose token equals the first Content-Encoding token ignoring case |
| Decoding.Decode | src/Core/HttpContentOperations.cs:20-39 | the decoded content is a fresh readable seekable stream holding what the codec makes of the bytes read (as a byte array, or as a stream for the legacy library); a read failure propagates and rejected bytes fail with invalid data |
| Decoding.DecompressBody | src/Client/ClientCompressionHandler.cs:178-198 | the content is passed through when no compressor has its first token; readable content is decoded when the codec decodes, and otherwise fails with invalid data, wrapped with a message naming the compressor when a direction is given |
| Decoding.DecodeLive | src/Core/HttpContentOperations.cs:20-39 | readable content whose bytes decode is decoded by either generation's operation |
| Decoding.DecodeGarbage | src/Core/HttpContentOperations.cs:25-28 | undecodable bytes fail with invalid data in either generation |
| Decoding.DecodeOutcome | src/Core/HttpContentOperations.cs:20-39 | for readable content, either generation decodes to what the codec makes of its bytes, or fails with invalid data |
| Decoding.DecodeErrors | src/Microsoft.AspNet.WebApi.MessageHandlers.Compression/HttpContentOperations.cs:20-38 | decoding fails only through disposal or invalid data |
| BaseServer.New | src/Server/BaseServerCompressionHandler.cs:50-53 | without arguments the threshold is 860 and the default rule takes "gzip", "deflate" and "*" |
| BaseServer.HandleDecompression | src/Server/BaseServerCompressionHandler.cs:227-236 | the request hook keeps the Accept-Encoding entries and properties, and keeps content present exactly when it was |
| BaseServer.HandleCompression | src/Server/BaseServerCompressionHandler.cs:243-272 | a missing response passes; what the enable rule throws escapes; otherwise a response keeps being present, and an object-disposed error never escapes |
| BaseServer.SendAsync | src/Server/BaseServerCompressionHandler.cs:214-221 | a request-side failure is returned as it is; a request without content reaches the inner handler unchanged; on success the handler returns a response exactly when the inner handler did for the request it was given |
| BaseServer.CompressResponse | src/Server/BaseServerCompressionHandler.cs:280-327 | the compression step fails only with an error wrapped with a message naming the compressor |
| BaseServer.NullPropertyFails | src/Server/BaseServerCompressionHandler.cs:243-250 | with the default rule, a null "compression:Enable" value on a request that mentions a token fails the response hook with a null reference, outside the try block |
| BaseServer.CompressResponseSpec | src/Server/BaseServerCompressionHandler.cs:280-327 | for live content the step never fails, and wraps with compressor k exactly when k is negotiated (wildcard first), the content is not already in k's coding, and the length meets the threshold |
| BaseServer.NoDoubleCompression | src/Server/BaseServerCompressionHandler.cs:306-310 | content already encoded with the negotiated token is left untouched |
| BaseServer.CompressorChoice | src/Server/BaseServerCompressionHandler.cs:288-299 | a wrapper's compressor is the first one under "*", and otherwise that of the chosen pair |
| BaseServer.DisposedStreamResponsePasses | src/Server/BaseServerCompressionHandler.cs:252-268 | a disposed stream response fails buffering, the object-disposed error is caught, and the response passes unchanged |
| BaseServer.DisposedStringResponseFails | src/Server/BaseServerCompressionHandler.cs:313-325 | a disposed string response skips buffering and its length getter's failure escapes wrapped |
| BaseServer.StreamResponseGauged | src/Server/BaseServerCompressionHandler.cs:253-263 | a stream response without a stored length is buffered first, so it is compressed exactly when its size meets the threshold |
| BaseServer.DisabledPasses | src/Server/BaseServerCompressionHandler.cs:243-271 | a missing response, one without content, or one the rule refuses is returned as it came |
| BaseServer.UppercaseRequestNotDecompressed | src/Server/BaseServerCompressionHandler.cs:230-233 | the request gate compares exactly, so a body marked "GZIP" is not decompressed |
| BaseServer.RequestDecompressed | src/Server/BaseServerCompressionHandler.cs:214-236 | a gzip or deflate body the codec decodes reaches the inner handler decoded; an undecodable one fails with a message naming the compressor |
| Server.New | src/Server/ServerCompressionHandler.cs:37-107 | without a threshold the handler uses 860 and the default rule takes "gzip" and "deflate" |
| Server.DecompressRequest | src/Server/ServerCompressionHandler.cs:195-212 | the request half keeps the Accept-Encoding entries and properties, and keeps content present exactly when it was |
| Server.CompressResponseOf | src/Server/ServerCompressionHandler.cs:131-147 | what the enable rule throws escapes; a rule saying no returns the response as it came; otherwise a response keeps being present |
| Server.SendAsync | src/Server/ServerCompressionHandler.cs:122-148 | a request-side failure is returned as it is; a request without content reaches the inner handler unchanged; when the rule says no, the inner handler's response is returned untouched; on success a response is returned exactly when the inner handler gave one |
| Server.NullPropertyFails | src/Server/ServerCompressionHandler.cs:131-135 | with the default rule, a null "compression:Enable" value on a request that mentions a token fails with a null reference, whatever the inner handler returned |
| Server.CompressResponseSpec | src/Server/ServerCompressionHandler.cs:133-188 | a live response is buffered, then wrapped with the negotiated compressor exactly when the buffered length meets the threshold, and stands for the encoded or the original bytes |
| Server.BufferedLengthDecides | src/Server/ServerCompressionHandler.cs:138-181 | a plain response without a stored length is compressed exactly when its own size meets the threshold |
| Server.CompressesTwice | src/Server/ServerCompressionHandler.cs:169-181 | there is no already-encoded check: a gzip response negotiated to gzip with threshold 0 ends up marked "gzip, gzip" |
| Server.MissingResponse | src/Server/ServerCompressionHandler.cs:133-147 | a missing response fails with a null reference exactly when the enable rule says yes |
| Server.DisposedResponseFails | src/Server/ServerCompressionHandler.cs:138-145 | disposed response content makes buffering fail, and nothing catches it |
| Server.RequestDecompressed | src/Server/ServerCompressionHandler.cs:124-128 | any encoding opens the request gate; a decodable body is decoded, an undecodable one fails with the wrapped message |
| Server.UnknownEncodingPasses | src/Server/ServerCompressionHandler.cs:197-201 | a request whose first token no compressor has passes unchanged |
| Client.CompressRequest | src/Client/ClientCompressionHandler.cs:90-94 | without content or Accept-Encoding entries the request is left as it is |
| Client.CompressContent | src/Client/ClientCompressionHandler.cs:133-171 | without a negotiated compressor the content is untouched; a failing Content-Length getter escapes unwrapped |
| Client.DecompressResponse | src/Client/ClientCompressionHandler.cs:96-125 | the response half keeps a response present exactly when it was |
| Client.SendAsync | src/Client/ClientCompressionHandler.cs:88-126 | a request-side failure is returned as it is; a request without content or without Accept-Encoding entries is sent unchanged; on success a response is returned exactly when the inner handler gave one |
| Client.CompressContentSpec | src/Client/ClientCompressionHandler.cs:133-171 | a readable plain body is compressed exactly when its gauged length (stored, or measured by buffering) meets the threshold, and stands for the encoded or original bytes |
| Client.NoChoiceNoChange | src/Client/ClientCompressionHandler.cs:136-146 | without a negotiated compressor the content is untouched |
| Client.UnreadableResponsePasses | src/Client/ClientCompressionHandler.cs:98-117 | a missing response, or one whose content cannot be buffered, is returned as it came |
| Client.ResponseDecompressed | src/Client/ClientCompressionHandler.cs:178-198 | a readable response is decoded with the first token's compressor; an undecodable one fails with a message naming the compressor |
| LegacyServer.New | src/Microsoft.AspNet.WebApi.MessageHandlers.Compression/ServerCompressionHandler.cs:33-75 | without a threshold the handler uses 860 |
| LegacyServer.DecompressRequest | src/Microsoft.AspNet.WebApi.MessageHandlers.Compression/ServerCompressionHandler.cs:174-191 | the request half keeps the Accept-Encoding entries and properties, and keeps content present exactly when it was |
| LegacyServer.CompressResponseOf | src/Microsoft.AspNet.WebApi.MessageHandlers.Compression/ServerCompressionHandler.cs:97-167 | a response keeps being present, and every failure is wrapped with a message naming the compressor |
| LegacyServer.SendAsync | src/Microsoft.AspNet.WebApi.MessageHandlers.Compression/ServerCompressionHandler.cs:89-127 | a request-side failure is returned as it is; every response-side failure is wrapped; a request without content reaches the inner handler unchanged; on success a response is returned exactly when the inner handler gave one |
| LegacyServer.CompressResponseSpec | src/Microsoft.AspNet.WebApi.MessageHandlers.Compression/ServerCompressionHandler.cs:99-167 | a live response is buffered and put in the legacy wrapper exactly when its length meets the threshold |
| LegacyServer.AdvertisesOriginalLength | src/Microsoft.AspNet.WebApi.MessageHandlers.Compression/ServerCompressionHandler.cs:153-160 | with a positive threshold the legacy wrapper copies the length the getter stored, so until written it advertises the uncompressed size |
| LegacyServer.UnreadableResponsePasses | src/Microsoft.AspNet.WebApi.MessageHandlers.Compression/ServerCompressionHandler.cs:99-118 | a missing response or one that cannot be buffered passes uncompressed |
| LegacyServer.NoAcceptOnlyBuffers | src/Microsoft.AspNet.WebApi.MessageHandlers.Compression/ServerCompressionHandler.cs:121-124 | without Accept-Encoding entries the response is only buffered |
| LegacyServer.RequestDecompressed | src/Microsoft.AspNet.WebApi.MessageHandlers.Compression/ServerCompressionHandler.cs:174-191 | a request body is decoded by the first token's compressor, or fails with a message naming it |
| LegacyClient.New | src/Microsoft.AspNet.WebApi.MessageHandlers.Compression/ClientCompressionHandler.cs:32-47 | constructors without a threshold leave it at 0 |
| LegacyClient.CompressRequest | src/Microsoft.AspNet.WebApi.MessageHandlers.Compression/ClientCompressionHandler.cs:108-133 | a request without content or Accept-Encoding entries is left as it is; otherwise entries and properties are kept and content stays present |
| LegacyClient.DecompressResponse | src/Microsoft.AspNet.WebApi.MessageHandlers.Compression/ClientCompressionHandler.cs:140-153 | a missing response fails with a null reference; a success always has a response |
| LegacyClient.SendAsync | src/Microsoft.AspNet.WebApi.MessageHandlers.Compression/ClientCompressionHandler.cs:84-101 | a request-side failure is returned as it is; a request without content or Accept-Encoding entries is sent unchanged; a missing response from the inner handler fails with a null reference, so a success always has a response |
| LegacyClient.DefaultCompressesEverything | src/Microsoft.AspNet.WebApi.MessageHandlers.Compression/ClientCompressionHandler.cs:121-127 | with the default threshold any request with a negotiated compressor is wrapped, whatever its size |
| LegacyClient.UnknownLengthNotCompressed | src/Microsoft.AspNet.WebApi.MessageHandlers.Compression/ClientCompressionHandler.cs:124-131 | with a positive threshold a non-seekable stream body of unknown length is never compressed, since nothing buffers it |
| LegacyClient.DisposedRequestFails | src/Microsoft.AspNet.WebApi.MessageHandlers.Compression/ClientCompressionHandler.cs:128 | the length getter's failure on a disposed body escapes unwrapped |
| LegacyClient.ResponseDecompressed | src/Microsoft.AspNet.WebApi.MessageHandlers.Compression/ClientCompressionHandler.cs:140-153 | a response is decoded by the first token's compressor; a codec failure surfaces unwrapped |
| LegacyCompression.WrapsNegotiated | src/Microsoft.AspNet.WebApi.MessageHandlers.Compression/CompressionHandler.cs:55-71 | with Accept-Encoding entries, any response content is wrapped with the negotiated compressor, with no threshold, or kept when none is negotiated |
| LegacyCompression.CompressResponse | src/Microsoft.AspNet.WebApi.MessageHandlers.Compression/CompressionHandler.cs:49-75 | without Accept-Encoding entries the response is returned as it came; a response keeps being present |
| LegacyCompression.SendAsync | src/Microsoft.AspNet.WebApi.MessageHandlers.Compression/CompressionHandler.cs:49-75 | without Accept-Encoding entries the inner handler's response is returned as it is; on success a response is returned exactly when the inner handler gave one |
| LegacyCompression.MissingResponse | src/Microsoft.AspNet.WebApi.MessageHandlers.Compression/CompressionHandler.cs:53-55 | a missing response fails exactly when the request lists codings |
| LegacyCompression.CompressesOnlyAcceptable | src/Microsoft.AspNet.WebApi.MessageHandlers.Compression/CompressionHandler.cs:60-68 | content is only changed when some entry of positive quality names a registered compressor |
| LegacyDecompression.ContentlessResponseThrows | src/Microsoft.AspNet.WebApi.MessageHandlers.Compression/DecompressionHandler.cs:53 | as written, a response without content fails with a null reference; the corrected handler passes it on |
| LegacyDecompression.NullTestIsDead | src/Microsoft.AspNet.WebApi.MessageHandlers.Compression/DecompressionHandler.cs:53 | the two versions differ exactly on responses without content |
| LegacyDecompression.IntendedNeverDereferencesNull | src/Microsoft.AspNet.WebApi.MessageHandlers.Compression/DecompressionHandler.cs:49-66 | the corrected handler fails on a response only through disposal or invalid data |
| LegacyDecompression.ResponseDecompressed | src/Microsoft.AspNet.WebApi.MessageHandlers.Compression/DecompressionHandler.cs:55-92 | a readable response is decoded by the first token's compressor; a codec failure surfaces unwrapped |
| LegacyDecompression.DecompressAsWritten | src/Microsoft.AspNet.WebApi.MessageHandlers.Compression/DecompressionHandler.cs:53 | as written, a missing response fails with a null reference |
| LegacyDecompression.Decompress | src/Microsoft.AspNet.WebApi.MessageHandlers.Compression/DecompressionHandler.cs:49-66 | the corrected handler fails on a missing response and passes a response without content unchanged |
| LegacyDecompression.SendAsync | src/Microsoft.AspNet.WebApi.MessageHandlers.Compression/DecompressionHandler.cs:49-66 | the handler with its null test moved before the header read (see "## Findings"): a missing response fails with a null reference, a response without content is passed on, and it differs from the handler as written exactly on responses without content |
| Exchange.ClientSends | src/Client/ClientCompressionHandler.cs:133-171 | a readable plain request body is sent either as it is, or in the current wrapper around itself, possibly buffered and with its length stored |
| Exchange.ServerSends | src/Server/ServerCompressionHandler.cs:133-188 | a readable plain response is sent buffered, either as it is or in the current wrapper |
| Exchange.LegacyClientSends | src/Microsoft.AspNet.WebApi.MessageHandlers.Compression/ClientCompressionHandler.cs:108-133 | a readable plain request body with a negotiated compressor is sent either as it is or in the legacy wrapper around it |
| Exchange.LegacyServerSends | src/Microsoft.AspNet.WebApi.MessageHandlers.Compression/ServerCompressionHandler.cs:135-167 | a readable plain response with a negotiated compressor is sent buffered, either as it is or in the legacy wrapper |
| Exchange.Transmitted | src/Core/Models/CompressedContent.cs:75-92 | sent content arrives with no encoding if it was not wrapped, and otherwise with exactly the token of the compressor that wrote it; either way the original bytes can be recovered |
| Exchange.RequestRoundTrip | src/Client/ClientCompressionHandler.cs:133-171 | a request body the client sends is decompressed by a server with the same compressors back to the original bytes |
| Exchange.ResponseRoundTrip | src/Server/ServerCompressionHandler.cs:156-212 | a response the server sends is decompressed by a client with the same compressors back to the original bytes |
| Exchange.LegacyRequestRoundTrip | src/Microsoft.AspNet.WebApi.MessageHandlers.Compression/ClientCompressionHandler.cs:108-133 | the legacy client and server have the same round trip for request bodies |
| Exchange.LegacyResponseRoundTrip | src/Microsoft.AspNet.WebApi.MessageHandlers.Compression/ServerCompressionHandler.cs:135-167 | the legacy server and client have the same round trip for responses |

## Left out

- **Codecs:** the gzip and deflate byte algorithms (RFC 1952 and RFC 1951, from `System.IO.Compression`) are the uninterpreted functions `deflate` and `inflate` of a compressor. That they invert each other is the hypothesis `RoundTrips`, stated only on the lemmas that need it.
- **Other content types:** only `StringContent`, `ByteArrayContent`, `StreamContent` and the two wrappers are modelled. Other `HttpContent` subclasses, such as `ObjectContent<T>`, `PushStreamContent` and `MultipartContent`, are not. A non-seekable `StreamContent` stands in for a content that computes no length: it agrees on `TryComputeLength`, on buffering and on the base server's `ContentLengthKnown` test. It differs in one place: reading it as a stream. The model's `ReadAsStream` returns the stream's bytes without buffering, while such a content's `ReadAsStreamAsync` buffers first.
- **Asynchrony:** `async`/`await`, `ConfigureAwait`, the base server's `continueOnCapturedContext` flag and cancellation tokens are left out. Each handler step is a function of its inputs.
- **The inner handler:** forwarding to it is a function parameter. Exceptions it raises are not modelled.
- **Stream managers:** the pooling managers (`RecyclableStreamManager`, `StreamManager`) and `IStreamManager` are left out. Buffers are plain byte sequences.
- **Quality values:** these are doubles in .NET. Here they are integers in thousandths, 0 to 1000, as in section 5.3.1 of RFC 7231.
- **Header text:** the parsing and validation rules of individual header values are left out. A header's acceptable values are abstracted to a small typed check (numbers for Content-Length, text otherwise).
- **Letter case:** case-insensitive comparison lower-cases ASCII letters only. Culture-specific case folding is not modelled.
- Text.TryParseBool: compares "true" and "false" after lower-casing ASCII letters only, where .NET ignores case with ordinal case folding; the two agree on every text whose letters are ASCII. The white space trimmed is that of `Char.IsWhiteSpace`, plus NUL.
- **Reading a stream twice:** a non-seekable `StreamContent` that was already read cannot be read again in .NET ("already consumed"). The model reads a stream content's bytes as often as it is asked. Buffering's 2 GB limit (`MaxBufferSize`) and the out-of-memory failures beyond it are not modelled either.
- **Attributes and OWIN:** the OWIN server handler, the routing attributes (`CompressionAttribute`, `DisableCompressionAttribute`) and trace logging are not part of this model. The property "compression:Enable" is an entry of the request's property map, held as the text its value's `ToString()` gives, or as no value when it is null.
- **`ICompressor`:** the legacy interface declares `Compress` as returning a bare `Task`. The model uses the length-returning form its callers rely on.
- **BaseServer handler split:** `BaseServer.HandleDecompression` and `BaseServer.HandleCompression` stand for the abstract `HandleRequest` and `HandleResponse` hooks. They also model the base class's private methods that those hooks call. Subclasses are not modelled.
- **Server request gate:** `Server.DecompressRequest` reads the first token with `FirstOrDefault` where the source calls `First()`. The gate guarantees at least one token, so the two agree.
- **`LegacyDecompression`:** the handler's private `CopyHeaders` (DecompressionHandler.cs:94-137) is the same sequence of statements as the legacy `HttpContentOperations.CopyHeaders`, so it is modelled once, by `LegacyContentOperations.CopyHeaders`.
- **Client.ResponseDecompressed:** stated for plain response content only. This is the content a client receives from the wire. Wrapper content handed to the client by an inner handler is not covered.
- **Client.CompressContentSpec:** the exact compression decision is stated for content whose Content-Length setter was never called, or with a threshold of at most 0. After the setter stored null, the getter reports null and the body is never compressed; this case is covered by `Exchange.ClientSends` only as "sent as it is or wrapped".
- **Exchange round trips:** stated for plain content that carries no Content-Encoding yet, between handlers configured with the same compressors whose tokens differ ignoring case.

## Findings

| source | as written | input that shows it | evidently intended | confidence | as-written member | corrected member |
|---|---|---|---|---|---|---|
| src/Microsoft.AspNet.WebApi.MessageHandlers.Compression/DecompressionHandler.cs:53 | the test reads `response.Content.Headers.ContentEncoding` before checking `response.Content != null`, so the null test can never fail | a response without content, such as a 204 No Content | a response without content is passed on unchanged | high; not executed | LegacyDecompression.DecompressAsWritten, LegacyDecompression.ContentlessResponseThrows | LegacyDecompression.Decompress, LegacyDecompression.IntendedNeverDereferencesNull, LegacyDecompression.SendAsync |
