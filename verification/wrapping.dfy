/** The step every compressing handler ends with once a compressor is
    chosen: apply the size threshold and, when it is met, replace the body
    by a compressing wrapper (the current one, or the legacy one for the
    legacy handlers). For a positive threshold the Content-Length getter is
    consulted, which may compute and store the length, or throw. */
module Wrapping {
  import opened Wrappers
  import opened Errors
  import opened Codecs
  import opened Contents
  import opened Thresholds
  import CompressedContent
  import LegacyCompressedContent

  /** `new CompressedContent(content, compressor)` of either library. */
  function WrapWith(c: Content, comp: Compressor, legacy: bool): Content {
    if legacy then LegacyCompressedContent.Wrap(c, comp) else CompressedContent.Wrap(c, comp)
  }

  /** The same content object, up to a Content-Length the getter stored. */
  ghost predicate SameState(a: Content, b: Content) {
    a.body == b.body && a.buffer == b.buffer && a.disposed == b.disposed && a.lengthSet == b.lengthSet
  }

  /** `r` is the wrapper of the given kind around `c` using `comp`. */
  ghost predicate Wraps(r: Content, c: Content, comp: Compressor, legacy: bool) {
    && (if legacy then r.body.LegacyCompressed? else r.body.Compressed?)
    && r.body.compressor == comp
    && SameState(r.body.original, c)
    && !r.disposed && r.buffer.None?
  }

  /** The length the threshold comparison sees: the getter runs only for a
      positive threshold. */
  function Gauge(threshold: Int32, c: Content): (r: Option<nat>)
    ensures threshold <= 0 ==> r.None?
    ensures ReadContentLength(c).Err? ==> r.None?
    ensures r.Some? ==> ReadContentLength(c).Ok? && ReadContentLength(c).value.0 == Some(r.value)
  {
    if threshold > 0 && ReadContentLength(c).Ok? then ReadContentLength(c).value.0 else None
  }

  /** The threshold branch of `CompressResponse` / `CompressRequest`. */
  function ApplyThreshold(threshold: Int32, c: Content, comp: Compressor, legacy: bool): (r: Result<Content, Error>)
    ensures r.Err? <==> threshold > 0 && ReadContentLength(c).Err?
    ensures r.Err? ==> r.error == ReadContentLength(c).error
    ensures r.Ok? && Meets(threshold, Gauge(threshold, c)) ==> Wraps(r.value, c, comp, legacy)
    ensures r.Ok? && !Meets(threshold, Gauge(threshold, c)) ==> SameState(r.value, c)
  {
    if threshold == 0 then Ok(WrapWith(c, comp, legacy))
    else if threshold > 0 then
      match ReadContentLength(c)
      case Err(e) => Err(e)
      case Ok((length, c')) =>
        if length.Some? && length.value >= threshold then Ok(WrapWith(c', comp, legacy)) else Ok(c')
    else Ok(c)
  }

  /** The threshold step as a handler runs it: a failure is rethrown
      wrapped with a message naming the compressor type when `direction`
      names one ("request" or "response"), and as it is otherwise. */
  function CompressWith(threshold: Int32, c: Content, comp: Compressor, legacy: bool, direction: Option<string>): (r: Result<Content, Error>)
    ensures r.Ok? <==> ApplyThreshold(threshold, c, comp, legacy).Ok?
    ensures r.Ok? ==> r.value == ApplyThreshold(threshold, c, comp, legacy).value
    ensures r.Err? && direction.Some? ==>
              r.error == Wrapped(FailureMessage("compress", direction.value, comp.typeName), ReadContentLength(c).error)
    ensures r.Err? && direction.None? ==> r.error == ReadContentLength(c).error
  {
    match ApplyThreshold(threshold, c, comp, legacy)
    case Ok(c') => Ok(c')
    case Err(e) =>
      if direction.Some? then Err(Wrapped(FailureMessage("compress", direction.value, comp.typeName), e)) else Err(e)
  }

  /** On content that is not disposed the step cannot fail: the content is
      wrapped exactly when the gauged length meets the threshold, and is
      otherwise kept, with the bytes it stands for following suit. */
  lemma CompressWithLive(threshold: Int32, c: Content, comp: Compressor, legacy: bool, direction: Option<string>)
    requires !c.disposed
    ensures CompressWith(threshold, c, comp, legacy, direction).Ok?
    ensures Meets(threshold, Gauge(threshold, c)) <==> Wraps(CompressWith(threshold, c, comp, legacy, direction).value, c, comp, legacy)
    ensures !Meets(threshold, Gauge(threshold, c)) ==> SameState(CompressWith(threshold, c, comp, legacy, direction).value, c)
    ensures Payload(CompressWith(threshold, c, comp, legacy, direction).value) ==
              if Meets(threshold, Gauge(threshold, c)) then comp.deflate(Payload(c)) else Payload(c)
  {
    ApplyThresholdLive(threshold, c, comp, legacy);
    ApplyThresholdPayload(threshold, c, comp, legacy);
  }

  /** Whatever the threshold decides, the bytes the body stands for are the
      original's or their encoding with the chosen compressor. */
  lemma ApplyThresholdPayload(threshold: Int32, c: Content, comp: Compressor, legacy: bool)
    requires ApplyThreshold(threshold, c, comp, legacy).Ok?
    ensures Meets(threshold, Gauge(threshold, c)) ==>
              Payload(ApplyThreshold(threshold, c, comp, legacy).value) == comp.deflate(Payload(c))
    ensures !Meets(threshold, Gauge(threshold, c)) ==>
              Payload(ApplyThreshold(threshold, c, comp, legacy).value) == Payload(c)
  {
    var r := ApplyThreshold(threshold, c, comp, legacy).value;
    if Meets(threshold, Gauge(threshold, c)) {
      assert Payload(r.body.original) == Payload(c);
    }
  }

  /** Readable content keeps the threshold step from failing, and a
      content with a known length is gauged by it. */
  lemma ApplyThresholdLive(threshold: Int32, c: Content, comp: Compressor, legacy: bool)
    requires !c.disposed
    ensures ApplyThreshold(threshold, c, comp, legacy).Ok?
    ensures threshold > 0 ==> Gauge(threshold, c) == ReadContentLength(c).value.0
  {
  }
}
