/** `HttpContentOperations` of the legacy library. `DecompressContent` reads
    the compressed content as a stream, decodes it into a target in-memory
    stream, wraps that in a `StreamContent`, copies eleven known headers
    across with `CopyHeaders`, and disposes the compressed content.
    `CopyHeaders` appends the values of the three list headers (Allow,
    Content-Encoding, Content-Language) and assigns the other eight through
    their typed properties; Content-Length is read through its getter, so it
    may be computed, and writing it marks the new content's length as set. */
module LegacyContentOperations {
  import opened Wrappers
  import opened Errors
  import opened Headers
  import opened Codecs
  import opened Contents
  import Text

  /** One statement of `CopyHeaders`. */
  datatype Step =
    | AppendAll(name: string)   // foreach value: output.Headers.X.Add(value)
    | Assign(name: string)      // output.Headers.X = input.Headers.X
    | AssignLength              // output.Headers.ContentLength = input.Headers.ContentLength

  function StepName(s: Step): string {
    match s
    case AppendAll(n) => n
    case Assign(n) => n
    case AssignLength => ContentLength
  }

  /** The statements of `CopyHeaders`, in source order. */
  const CopySteps: seq<Step> := [
    AppendAll(Allow), Assign(ContentDisposition), AppendAll(ContentEncoding), AppendAll(ContentLanguage),
    AssignLength, Assign(ContentLocation), Assign(ContentMD5), Assign(ContentRange), Assign(ContentType),
    Assign(Expires), Assign(LastModified)]

  /** One statement, given the input's headers and the length its getter reported. */
  function ApplyStep(s: Step, from: Headers, length: Option<nat>, output: Content): (r: Content)
    ensures r.body == output.body && r.buffer == output.buffer && r.disposed == output.disposed
  {
    match s
    case AppendAll(n) => output.(headers := AddValues(output.headers, n, Values(from, n)))
    case Assign(n) => output.(headers := Set(output.headers, n, First(from, n)))
    case AssignLength => SetContentLength(output, length)
  }

  function ApplySteps(steps: seq<Step>, from: Headers, length: Option<nat>, output: Content): (r: Content)
    ensures r.body == output.body && r.buffer == output.buffer && r.disposed == output.disposed
    decreases |steps|
  {
    if steps == [] then output
    else ApplySteps(steps[1..], from, length, ApplyStep(steps[0], from, length, output))
  }

  /** `CopyHeaders(input, output)`: the new output and the input after its
      Content-Length getter returned. Only that getter can fail: it throws when
      the input is disposed and has no length to report. */
  function CopyHeaders(input: Content, output: Content): Result<(Content, Content), Error> {
    match ReadContentLength(input)
    case Err(e) => Err(e)
    case Ok((length, input')) => Ok((ApplySteps(CopySteps, input.headers, length, output), input'))
  }

  /** `DecompressContent(compressedContent, compressor)`: the decompressed
      content and the compressed content, disposed by the `using` block. */
  function DecompressContent(compressed: Content, compressor: Compressor): (r: Result<(Content, Content), Error>)
    ensures ReadAsStream(compressed).Err? ==> r == Err(ReadAsStream(compressed).error)
    ensures ReadAsStream(compressed).Ok? && compressor.inflate(ReadAsStream(compressed).value.0).None? ==>
              r == Err(InvalidData)
    ensures r.Ok? ==>
              && ReadAsStream(compressed).Ok?
              && compressor.inflate(ReadAsStream(compressed).value.0) == Some(Payload(r.value.0))
              && r.value.0.body.Raw? && r.value.0.body.kind == StreamContent(true)
              && !r.value.0.disposed && r.value.1.disposed
  {
    match ReadAsStream(compressed)
    case Err(e) => Err(e)
    case Ok((bytes, compressed')) =>
      match compressor.inflate(bytes)
      case None => Err(InvalidData)
      case Some(decoded) =>
        var s := Rewind(Write(Empty, decoded));
        WriteEmpty(decoded);
        match CopyHeaders(compressed', StreamContentOf(s, []))
        case Err(e) => Err(e)
        case Ok((decompressed, compressed'')) => Ok((decompressed, Dispose(compressed'')))
  }

  // ---------------------------------------------------------------------
  // What the copy does to each header
  // ---------------------------------------------------------------------

  /** What one statement makes of the output's values for its header. */
  function StepOutcome(s: Step, from: Headers, length: Option<nat>, current: seq<HeaderValue>): seq<HeaderValue> {
    match s
    case AppendAll(n) => Appended(n, current, Values(from, n))
    case Assign(n) => if Values(from, n) == [] then [] else [Values(from, n)[0]]
    case AssignLength => if length.Some? then [Num(length.value)] else []
  }

  /** The statements touch pairwise different headers. */
  predicate DistinctSteps(steps: seq<Step>) {
    forall i, j :: 0 <= i < j < |steps| ==> !SameName(StepName(steps[i]), StepName(steps[j]))
  }

  lemma ApplyStepEffect(s: Step, from: Headers, length: Option<nat>, output: Content, m: string)
    requires DistinctNames(output.headers) && NonEmptyFields(output.headers)
    ensures DistinctNames(ApplyStep(s, from, length, output).headers)
    ensures NonEmptyFields(ApplyStep(s, from, length, output).headers)
    ensures ApplyStep(s, from, length, output).body == output.body
    ensures ApplyStep(s, from, length, output).disposed == output.disposed
    ensures s.AssignLength? ==> ApplyStep(s, from, length, output).lengthSet
    ensures !s.AssignLength? ==> ApplyStep(s, from, length, output).lengthSet == output.lengthSet
    ensures SameName(m, StepName(s)) ==>
              Values(ApplyStep(s, from, length, output).headers, m) == StepOutcome(s, from, length, Values(output.headers, m))
    ensures !SameName(m, StepName(s)) ==>
              Values(ApplyStep(s, from, length, output).headers, m) == Values(output.headers, m)
  {
    match s {
      case AppendAll(n) =>
        AddValuesDistinct(output.headers, n, Values(from, n));
        AddValuesEffect(output.headers, n, Values(from, n), m);
        if SameName(m, n) { FindSameName(output.headers, m, n); }
      case Assign(n) =>
        SetDistinct(output.headers, n, First(from, n));
        SetEffect(output.headers, n, First(from, n), m);
      case AssignLength =>
        var v := if length.Some? then Some(Num(length.value)) else None;
        SetDistinct(output.headers, ContentLength, v);
        SetEffect(output.headers, ContentLength, v, m);
    }
  }

  lemma {:induction false} ApplyStepsUntouched(steps: seq<Step>, from: Headers, length: Option<nat>, output: Content, m: string)
    requires DistinctNames(output.headers) && NonEmptyFields(output.headers)
    requires forall i :: 0 <= i < |steps| ==> !SameName(m, StepName(steps[i]))
    ensures DistinctNames(ApplySteps(steps, from, length, output).headers)
    ensures NonEmptyFields(ApplySteps(steps, from, length, output).headers)
    ensures Values(ApplySteps(steps, from, length, output).headers, m) == Values(output.headers, m)
    decreases |steps|
  {
    if steps != [] {
      ApplyStepEffect(steps[0], from, length, output, m);
      ApplyStepsUntouched(steps[1..], from, length, ApplyStep(steps[0], from, length, output), m);
    }
  }

  /** A header one statement names gets that statement's outcome; every
      other header keeps its values. */
  lemma {:induction false} ApplyStepsEffect(steps: seq<Step>, from: Headers, length: Option<nat>, output: Content, m: string)
    requires DistinctNames(output.headers) && NonEmptyFields(output.headers)
    requires DistinctSteps(steps)
    ensures ApplySteps(steps, from, length, output).body == output.body
    ensures ApplySteps(steps, from, length, output).disposed == output.disposed
    ensures (exists i :: 0 <= i < |steps| && steps[i].AssignLength?) ==> ApplySteps(steps, from, length, output).lengthSet
    ensures forall i :: 0 <= i < |steps| && SameName(m, StepName(steps[i])) ==>
              Values(ApplySteps(steps, from, length, output).headers, m) == StepOutcome(steps[i], from, length, Values(output.headers, m))
    ensures (forall i :: 0 <= i < |steps| ==> !SameName(m, StepName(steps[i]))) ==>
              Values(ApplySteps(steps, from, length, output).headers, m) == Values(output.headers, m)
    decreases |steps|
  {
    if steps != [] {
      var rest := steps[1..];
      var o' := ApplyStep(steps[0], from, length, output);
      ApplyStepEffect(steps[0], from, length, output, m);
      assert DistinctSteps(rest) by {
        forall i, j | 0 <= i < j < |rest| ensures !SameName(StepName(rest[i]), StepName(rest[j])) {
          assert rest[i] == steps[i + 1] && rest[j] == steps[j + 1];
        }
      }
      ApplyStepsEffect(rest, from, length, o', m);
      if SameName(m, StepName(steps[0])) {
        forall i | 0 <= i < |rest| ensures !SameName(m, StepName(rest[i])) {
          assert rest[i] == steps[i + 1];
        }
        ApplyStepsUntouched(rest, from, length, o', m);
        forall i | 0 <= i < |steps| && SameName(m, StepName(steps[i])) ensures i == 0 {
        }
      } else {
        forall i | 0 <= i < |steps| && SameName(m, StepName(steps[i]))
          ensures Values(ApplySteps(steps, from, length, output).headers, m) == StepOutcome(steps[i], from, length, Values(output.headers, m))
        {
          assert i != 0;
          assert steps[i] == rest[i - 1];
        }
      }
      if exists i :: 0 <= i < |steps| && steps[i].AssignLength? {
        var i :| 0 <= i < |steps| && steps[i].AssignLength?;
        if i != 0 {
          assert rest[i - 1] == steps[i];
        } else {
          ApplyStepsLengthSet(rest, from, length, o');
        }
      }
    }
  }

  /** Once set, the length stays set. */
  lemma {:induction false} ApplyStepsLengthSet(steps: seq<Step>, from: Headers, length: Option<nat>, output: Content)
    requires output.lengthSet
    ensures ApplySteps(steps, from, length, output).lengthSet
    decreases |steps|
  {
    if steps != [] {
      ApplyStepsLengthSet(steps[1..], from, length, ApplyStep(steps[0], from, length, output));
    }
  }

  /** The eleven headers `CopyHeaders` knows. */
  predicate Copied(m: string) {
    exists i :: 0 <= i < |CopySteps| && SameName(m, StepName(CopySteps[i]))
  }

  /** The lower-case forms of the names `CopyHeaders` handles, in order. */
  const CopiedNames: seq<string> := [
    "allow", "content-disposition", "content-encoding", "content-language", "content-length",
    "content-location", "content-md5", "content-range", "content-type", "expires", "last-modified"]

  lemma CopyStepNames()
    ensures |CopiedNames| == |CopySteps|
    ensures forall i :: 0 <= i < |CopySteps| ==> Text.Lower(StepName(CopySteps[i])) == CopiedNames[i]
  {
    KnownNames();
  }

  lemma CopiedNamesDistinct()
    ensures forall i, j :: 0 <= i < j < |CopiedNames| ==> CopiedNames[i] != CopiedNames[j]
  {
    assert CopiedNames[2][8] != CopiedNames[3][8] && CopiedNames[2][8] != CopiedNames[5][8];
    assert CopiedNames[3][9] != CopiedNames[5][9];
    assert CopiedNames[7][0] != CopiedNames[10][0];
  }

  lemma CopyStepsDistinct()
    ensures DistinctSteps(CopySteps)
  {
    CopyStepNames();
    CopiedNamesDistinct();
  }

  /** The list headers take many values, the assigned ones a single value. */
  lemma CopyStepKinds()
    ensures forall i :: 0 <= i < |CopySteps| && CopySteps[i].AppendAll? ==> !SingleValued(CopySteps[i].name)
    ensures forall i :: 0 <= i < |CopySteps| && CopySteps[i].Assign? ==> SingleValued(CopySteps[i].name)
  {
    KnownSingleValued();
  }

  /** The copy sets the output's length to what the input's getter reported. */
  lemma CopyHeadersLength(input: Content, output: Content)
    requires DistinctNames(output.headers) && NonEmptyFields(output.headers)
    requires ReadContentLength(input).Ok?
    ensures CopyHeaders(input, output).Ok?
    ensures CopyHeaders(input, output).value.0.lengthSet
    ensures StoredLength(CopyHeaders(input, output).value.0.headers) == ReadContentLength(input).value.0
  {
    var length := ReadContentLength(input).value.0;
    CopyStepsDistinct();
    assert CopySteps[4].AssignLength?;
    ApplyStepsEffect(CopySteps, input.headers, length, output, ContentLength);
  }

  /** One statement applied to an absent header stores the input's values. */
  lemma StepOutcomeFromEmpty(s: Step, from: Headers, length: Option<nat>, m: string)
    requires WellFormed(from) && SameName(m, StepName(s)) && !s.AssignLength?
    requires s.AppendAll? ==> !SingleValued(s.name)
    requires s.Assign? ==> SingleValued(s.name)
    ensures StepOutcome(s, from, length, []) == Values(from, m)
  {
    var n := StepName(s);
    FindSameName(from, m, n);
    WellFormedValues(from, n);
    if s.AppendAll? {
      AppendedAll(n, [], Values(from, n));
    }
  }

  /** Onto an empty store, each of the ten known headers other than
      Content-Length arrives with the input's values. */
  lemma CopyHeadersKnown(input: Content, output: Content, m: string)
    requires WellFormed(input.headers) && output.headers == []
    requires ReadContentLength(input).Ok?
    requires Copied(m) && !SameName(m, ContentLength)
    ensures CopyHeaders(input, output).Ok?
    ensures Values(CopyHeaders(input, output).value.0.headers, m) == Values(input.headers, m)
  {
    var length := ReadContentLength(input).value.0;
    CopyStepsDistinct();
    ApplyStepsEffect(CopySteps, input.headers, length, output, m);
    var i :| 0 <= i < |CopySteps| && SameName(m, StepName(CopySteps[i]));
    CopyStepKinds();
    StepOutcomeFromEmpty(CopySteps[i], input.headers, length, m);
  }

  /** Headers outside the eleven are dropped. */
  lemma CopyHeadersDropsOthers(input: Content, output: Content, m: string)
    requires output.headers == []
    requires ReadContentLength(input).Ok?
    requires !Copied(m)
    ensures CopyHeaders(input, output).Ok?
    ensures Values(CopyHeaders(input, output).value.0.headers, m) == []
  {
    CopyStepsDistinct();
    ApplyStepsEffect(CopySteps, input.headers, ReadContentLength(input).value.0, output, m);
  }

  // ---------------------------------------------------------------------
  // Decompression
  // ---------------------------------------------------------------------

  /** Readable compressed content whose bytes decode: the result stands for
      the decoded bytes, and the compressed content is disposed. */
  lemma DecompressLive(compressed: Content, compressor: Compressor, decoded: Bytes)
    requires Live(compressed)
    requires compressor.inflate(Payload(compressed)) == Some(decoded)
    ensures DecompressContent(compressed, compressor).Ok?
    ensures Payload(DecompressContent(compressed, compressor).value.0) == decoded
    ensures ReadAsStream(DecompressContent(compressed, compressor).value.1) == Err(ObjectDisposed)
  {
    ReadAsStreamLive(compressed);
    DisposedFails(DecompressContent(compressed, compressor).value.1);
  }

  /** Undecodable bytes fail with invalid data. */
  lemma DecompressGarbage(compressed: Content, compressor: Compressor)
    requires Live(compressed)
    requires compressor.inflate(Payload(compressed)).None?
    ensures DecompressContent(compressed, compressor) == Err(InvalidData)
  {
    ReadAsStreamLive(compressed);
  }

  /** Reading plain content as a stream leaves its headers alone. */
  lemma ReadAsStreamHeaders(c: Content)
    requires c.body.Raw? && Live(c)
    ensures ReadAsStream(c).Ok? && ReadAsStream(c).value.1.headers == c.headers
    ensures Live(ReadAsStream(c).value.1)
  {
    ReadAsStreamLive(c);
    LoadIntoBufferLive(c);
  }

  /** Received plain content with well-formed headers: the decompressed
      content keeps the ten known headers other than Content-Length, drops
      every other header, and keeps a stored Content-Length, which is the
      compressed size. */
  lemma DecompressHeaders(compressed: Content, compressor: Compressor, m: string)
    requires compressed.body.Raw? && Live(compressed) && WellFormed(compressed.headers)
    requires compressor.inflate(Payload(compressed)).Some?
    ensures DecompressContent(compressed, compressor).Ok?
    ensures Copied(m) && !SameName(m, ContentLength) ==>
              Values(DecompressContent(compressed, compressor).value.0.headers, m) == Values(compressed.headers, m)
    ensures !Copied(m) ==> Values(DecompressContent(compressed, compressor).value.0.headers, m) == []
    ensures Has(compressed.headers, ContentLength) ==>
              StoredLength(DecompressContent(compressed, compressor).value.0.headers) == StoredLength(compressed.headers)
  {
    ReadAsStreamHeaders(compressed);
    ReadAsStreamLive(compressed);
    var c' := ReadAsStream(compressed).value.1;
    var decoded := compressor.inflate(ReadAsStream(compressed).value.0).value;
    var target := StreamContentOf(Rewind(Write(Empty, decoded)), []);
    if Copied(m) && !SameName(m, ContentLength) {
      CopyHeadersKnown(c', target, m);
    }
    if !Copied(m) {
      CopyHeadersDropsOthers(c', target, m);
    }
    CopyHeadersLength(c', target);
  }

  /** Content that arrived without a Content-Length over a stream that
      cannot seek: the decompressed content reports no length, though its
      bytes are in memory, because the copy assigned the missing value. */
  lemma DecompressLosesLength(compressed: Content, compressor: Compressor, data: Bytes, decoded: Bytes)
    requires compressed == Plain(StreamContent(false), data, [])
    requires compressor.inflate(data) == Some(decoded)
    ensures DecompressContent(compressed, compressor).Ok?
    ensures DecompressContent(compressed, compressor).value.0.lengthSet
    ensures ReadContentLength(DecompressContent(compressed, compressor).value.0).Ok?
    ensures ReadContentLength(DecompressContent(compressed, compressor).value.0).value.0 == None
  {
    ReadAsStreamHeaders(compressed);
    var decoded' := compressor.inflate(ReadAsStream(compressed).value.0).value;
    var target := StreamContentOf(Rewind(Write(Empty, decoded')), []);
    CopyHeadersLength(compressed, target);
  }
}
