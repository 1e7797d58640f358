/** The decompression step shared by the handlers: the compressor is looked
    up by the first Content-Encoding token, ignoring letter case, and the
    content is decoded with the current or the legacy `DecompressContent`. */
module Decoding {
  import opened Wrappers
  import opened Errors
  import opened Headers
  import opened Codecs
  import opened Contents
  import Negotiation
  import Text
  import ContentOperations
  import LegacyContentOperations

  /** `ContentEncoding.FirstOrDefault()`. */
  function FirstEncoding(c: Content): (r: Option<string>)
    ensures r.Some? <==> Encodings(c.headers) != []
    ensures r.Some? ==> r.value == Encodings(c.headers)[0]
  {
    if Encodings(c.headers) == [] then None else Some(Encodings(c.headers)[0])
  }

  /** The compressor registered for the first token, if any. */
  function DecoderFor(c: Content, compressors: seq<Compressor>): (r: Option<nat>)
    ensures r.Some? ==> r.value < |compressors|
  {
    match FirstEncoding(c)
    case None => None
    case Some(token) => Negotiation.FindCompressor(token, compressors)
  }

  /** The decompressed content, through either library's operations. */
  function Decode(c: Content, comp: Compressor, legacy: bool): (r: Result<Content, Error>)
    ensures r.Ok? ==> r.value.body.Raw? && r.value.body.kind == StreamContent(true) && !r.value.disposed
    ensures var read := if legacy then ReadAsStream(c) else ReadAsByteArray(c);
            && (read.Err? ==> r == Err(read.error))
            && (read.Ok? ==> match comp.inflate(read.value.0)
                             case Some(d) => r.Ok? && Payload(r.value) == d
                             case None => r == Err(InvalidData))
  {
    if legacy then
      match LegacyContentOperations.DecompressContent(c, comp)
      case Err(e) => Err(e)
      case Ok((d, _)) => Ok(d)
    else
      match ContentOperations.DecompressContent(c, comp)
      case Err(e) => Err(e)
      case Ok((d, _)) => Ok(d)
  }

  /** `DecompressRequest` / `DecompressResponse`: the content decoded with
      the compressor registered for its first encoding token, or the content
      itself when none is. When `direction` names one, a failure is rethrown
      wrapped with a message naming the compressor type. For readable
      content the outcome is the decoded bytes when the chosen codec decodes
      and invalid data otherwise. */
  function DecompressBody(compressors: seq<Compressor>, c: Content, legacy: bool, direction: Option<string>): (r: Result<Content, Error>)
    ensures DecoderFor(c, compressors).None? ==> r == Ok(c)
    ensures Live(c) && DecoderFor(c, compressors).Some? ==>
              var comp := compressors[DecoderFor(c, compressors).value];
              match comp.inflate(Payload(c))
              case Some(d) => r.Ok? && Payload(r.value) == d
              case None =>
                r == if direction.Some? then Err(Wrapped(FailureMessage("decompress", direction.value, comp.typeName), InvalidData))
                     else Err(InvalidData)
  {
    match DecoderFor(c, compressors)
    case None => Ok(c)
    case Some(k) =>
      DecodeOutcome(c, compressors[k], legacy);
      match Decode(c, compressors[k], legacy)
      case Ok(d) => Ok(d)
      case Err(e) =>
        if direction.Some? then Err(Wrapped(FailureMessage("decompress", direction.value, compressors[k].typeName), e))
        else Err(e)
  }

  /** The lookup picks the first compressor whose token equals the first
      encoding token up to letter case, and finds none only when no
      compressor has that token. */
  lemma DecoderForSpec(c: Content, compressors: seq<Compressor>, k: nat)
    requires Encodings(c.headers) != []
    ensures DecoderFor(c, compressors) == Some(k) <==>
              && k < |compressors|
              && Text.EqualsIgnoreCase(compressors[k].encodingType, Encodings(c.headers)[0])
              && forall j :: 0 <= j < k ==> !Text.EqualsIgnoreCase(compressors[j].encodingType, Encodings(c.headers)[0])
  {
    var token := Encodings(c.headers)[0];
    var r := Negotiation.FindCompressor(token, compressors);
    if r.Some? && r.value != k && k < |compressors| && Text.EqualsIgnoreCase(compressors[k].encodingType, token) {
      assert r.value < k;
    }
  }

  /** Readable content whose bytes the codec decodes: decoding succeeds
      with the decoded bytes, in both libraries. */
  lemma DecodeLive(c: Content, comp: Compressor, legacy: bool, decoded: Bytes)
    requires Live(c) && comp.inflate(Payload(c)) == Some(decoded)
    ensures Decode(c, comp, legacy).Ok? && Payload(Decode(c, comp, legacy).value) == decoded
  {
    if legacy {
      LegacyContentOperations.DecompressLive(c, comp, decoded);
    } else {
      ContentOperations.DecompressLive(c, comp, decoded);
    }
  }

  /** For readable content, decoding yields what the codec makes of its
      bytes, and invalid data when the codec rejects them. */
  lemma DecodeOutcome(c: Content, comp: Compressor, legacy: bool)
    ensures Live(c) ==>
              match comp.inflate(Payload(c))
              case Some(d) => Decode(c, comp, legacy).Ok? && Payload(Decode(c, comp, legacy).value) == d
              case None => Decode(c, comp, legacy) == Err(InvalidData)
  {
    if Live(c) {
      match comp.inflate(Payload(c)) {
        case Some(d) => DecodeLive(c, comp, legacy, d);
        case None => DecodeGarbage(c, comp, legacy);
      }
    }
  }

  /** Readable content the codec cannot decode fails with invalid data. */
  lemma DecodeGarbage(c: Content, comp: Compressor, legacy: bool)
    requires Live(c) && comp.inflate(Payload(c)).None?
    ensures Decode(c, comp, legacy) == Err(InvalidData)
  {
    if legacy {
      LegacyContentOperations.DecompressGarbage(c, comp);
    } else {
      ContentOperations.DecompressGarbage(c, comp);
    }
  }

  /** Decoding fails only on disposal or on data the codec rejects. */
  lemma {:induction false} DecodeErrors(c: Content, comp: Compressor, legacy: bool)
    ensures Decode(c, comp, legacy).Err? ==>
              DisposalError(Decode(c, comp, legacy).error) || Decode(c, comp, legacy).error == InvalidData
  {
    if legacy {
      ReadAsStreamErrors(c);
    } else {
      ReadAsByteArrayErrors(c);
    }
  }
}
