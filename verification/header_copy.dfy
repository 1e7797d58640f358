/** `HttpContentHeaderExtensions.CopyTo`: copies every source header onto a
    target store through validated `Add`, with three switches. A header is
    skipped when it is Content-Length and lengths are not handled, when it is
    Content-Encoding and encodings are not handled, or when changed values
    are preserved and the target already holds the header with some value
    the source does not match. An `Add` that throws is swallowed: the values
    it stored before throwing stay and the loop moves on. */
module HeaderCopy {
  import opened Wrappers
  import opened Headers

  datatype Flags = Flags(handleContentLength: bool, handleContentEncoding: bool, handleChangedValues: bool)

  /** The defaults of the optional parameters. */
  const Defaults: Flags := Flags(true, true, false)

  /** Some target value differs from some source value. */
  predicate Changed(targetValues: seq<HeaderValue>, sourceValues: seq<HeaderValue>) {
    exists i, j :: 0 <= i < |targetValues| && 0 <= j < |sourceValues| && sourceValues[j] != targetValues[i]
  }

  /** Whether one source header is passed over, given what the target holds for it. */
  predicate Skipped(f: Field, targetValues: seq<HeaderValue>, flags: Flags) {
    || (!flags.handleContentLength && SameName(f.name, ContentLength))
    || (!flags.handleContentEncoding && SameName(f.name, ContentEncoding))
    || (!flags.handleChangedValues && targetValues != [] && Changed(targetValues, f.values))
  }

  /** One iteration of the copy loop. */
  function CopyField(f: Field, target: Headers, flags: Flags): (r: Headers)
    ensures KeepsFields(r, target)
  {
    if !flags.handleContentLength && SameName(f.name, ContentLength) then target
    else if !flags.handleContentEncoding && SameName(f.name, ContentEncoding) then target
    else if !flags.handleChangedValues && Has(target, f.name) && Changed(Values(target, f.name), f.values) then target
    else AddValues(target, f.name, f.values)
  }

  /** The whole copy, source headers in enumeration order. */
  function CopyTo(source: Headers, target: Headers, flags: Flags): (r: Headers)
    ensures KeepsFields(r, target)
    decreases |source|
  {
    if source == [] then target
    else CopyTo(source[1..], CopyField(source[0], target, flags), flags)
  }

  /** What the values of the target header become when field `f` is copied onto them. */
  function Outcome(f: Field, targetValues: seq<HeaderValue>, flags: Flags): seq<HeaderValue> {
    if Skipped(f, targetValues, flags) then targetValues
    else Appended(f.name, targetValues, f.values)
  }

  lemma CopyFieldEffect(f: Field, target: Headers, flags: Flags, m: string)
    requires NonEmptyFields(target)
    ensures NonEmptyFields(CopyField(f, target, flags))
    ensures SameName(m, f.name) ==> Values(CopyField(f, target, flags), m) == Outcome(f, Values(target, m), flags)
    ensures !SameName(m, f.name) ==> Values(CopyField(f, target, flags), m) == Values(target, m)
  {
    if SameName(m, f.name) { FindSameName(target, m, f.name); }
    AddValuesEffect(target, f.name, f.values, m);
    assert Has(target, f.name) <==> Values(target, f.name) != [];
  }

  /** Target headers the source does not name are left alone. */
  lemma {:induction false} CopyToUntouched(source: Headers, target: Headers, flags: Flags, m: string)
    requires NonEmptyFields(target)
    requires forall i :: 0 <= i < |source| ==> !SameName(m, source[i].name)
    ensures NonEmptyFields(CopyTo(source, target, flags))
    ensures Values(CopyTo(source, target, flags), m) == Values(target, m)
    decreases |source|
  {
    if source != [] {
      CopyFieldEffect(source[0], target, flags, m);
      CopyToUntouched(source[1..], CopyField(source[0], target, flags), flags, m);
    }
  }

  /** Effect of the copy on every header name: a header the source holds gets
      the outcome of copying that one field, every other header is untouched. */
  lemma {:induction false} CopyToEffect(source: Headers, target: Headers, flags: Flags, m: string)
    requires DistinctNames(source)
    requires NonEmptyFields(target)
    ensures NonEmptyFields(CopyTo(source, target, flags))
    ensures Values(CopyTo(source, target, flags), m) ==
              match Find(source, m)
              case Some(i) => Outcome(source[i], Values(target, m), flags)
              case None => Values(target, m)
    decreases |source|
  {
    if source != [] {
      var t' := CopyField(source[0], target, flags);
      CopyFieldEffect(source[0], target, flags, m);
      if SameName(m, source[0].name) {
        assert Find(source, m) == Some(0);
        forall i | 0 <= i < |source[1..]|
          ensures !SameName(m, source[1..][i].name)
        {
          assert source[1..][i] == source[i + 1];
        }
        CopyToUntouched(source[1..], t', flags, m);
      } else {
        var rest := source[1..];
        assert DistinctNames(rest) by {
          forall i, j | 0 <= i < j < |rest| ensures !SameName(rest[i].name, rest[j].name) {
            assert rest[i] == source[i + 1] && rest[j] == source[j + 1];
          }
        }
        CopyToEffect(rest, t', flags, m);
        match Find(rest, m) {
          case None =>
            FindIs(source, m, None);
          case Some(k) =>
            FindIs(source, m, Some(k + 1));
            assert rest[k] == source[k + 1];
        }
      }
    }
  }

  // ---------------------------------------------------------------------
  // The rules, one at a time
  // ---------------------------------------------------------------------

  /** Without Content-Length handling, the target's Content-Length is never touched. */
  lemma CopySkipsContentLength(source: Headers, target: Headers, flags: Flags)
    requires DistinctNames(source) && NonEmptyFields(target)
    requires !flags.handleContentLength
    ensures Values(CopyTo(source, target, flags), ContentLength) == Values(target, ContentLength)
  {
    CopyToEffect(source, target, flags, ContentLength);
  }

  /** Without Content-Encoding handling, the target's Content-Encoding is never touched. */
  lemma CopySkipsContentEncoding(source: Headers, target: Headers, flags: Flags)
    requires DistinctNames(source) && NonEmptyFields(target)
    requires !flags.handleContentEncoding
    ensures Values(CopyTo(source, target, flags), ContentEncoding) == Values(target, ContentEncoding)
  {
    CopyToEffect(source, target, flags, ContentEncoding);
  }

  /** A target header holding a value the source's does not match is preserved. */
  lemma CopyKeepsChangedValues(source: Headers, target: Headers, flags: Flags, m: string)
    requires DistinctNames(source) && NonEmptyFields(target)
    requires !flags.handleChangedValues
    requires Values(target, m) != [] && Changed(Values(target, m), Values(source, m))
    ensures Values(CopyTo(source, target, flags), m) == Values(target, m)
  {
    CopyToEffect(source, target, flags, m);
  }

  /** A header the target lacks is copied with all its (acceptable) values,
      unless a switch turns it off. */
  lemma CopyIntoAbsent(source: Headers, target: Headers, flags: Flags, m: string)
    requires WellFormed(source) && NonEmptyFields(target)
    requires Values(target, m) == []
    requires flags.handleContentLength || !SameName(m, ContentLength)
    requires flags.handleContentEncoding || !SameName(m, ContentEncoding)
    ensures Values(CopyTo(source, target, flags), m) == Values(source, m)
  {
    CopyToEffect(source, target, flags, m);
    match Find(source, m) {
      case None =>
      case Some(i) =>
        var f := source[i];
        FindSameName(source, m, f.name);
        assert f.values == Values(source, m);
        assert forall v :: v in f.values ==> Accepts(f.name, v);
        AppendedAll(f.name, [], f.values);
    }
  }

  /** Headers the source does not hold stay as they were. */
  lemma CopyLeavesOthers(source: Headers, target: Headers, flags: Flags, m: string)
    requires DistinctNames(source) && NonEmptyFields(target)
    requires !Has(source, m)
    ensures Values(CopyTo(source, target, flags), m) == Values(target, m)
  {
    CopyToEffect(source, target, flags, m);
  }

  /** Equal values are not a change: copying Content-Encoding "gzip" onto a
      target already holding "gzip" appends a second "gzip". */
  lemma CopyDuplicatesEqualValues()
    ensures
      var t := [Field(ContentEncoding, [Str("gzip")])];
      var s := [Field(ContentEncoding, [Str("gzip")])];
      Values(CopyTo(s, t, Defaults), ContentEncoding) == [Str("gzip"), Str("gzip")]
  {
    var t := [Field(ContentEncoding, [Str("gzip")])];
    var s := [Field(ContentEncoding, [Str("gzip")])];
    CopyToEffect(s, t, Defaults, ContentEncoding);
    assert !Changed([Str("gzip")], [Str("gzip")]);
    KnownSingleValued();
    FindIs(s, ContentEncoding, Some(0));
    FindIs(t, ContentEncoding, Some(0));
  }

  /** A rejected header does not stop the loop: adding to a Content-Type the
      target already holds throws and is swallowed, and the Content-Language
      after it is still copied. */
  lemma CopyContinuesAfterRejection()
    ensures
      var t := [Field(ContentType, [Str("text/plain")])];
      var s := [Field(ContentType, [Str("text/plain"), Str("text/html")]), Field(ContentLanguage, [Str("en")])];
      var r := CopyTo(s, t, Flags(true, true, true));
      Values(r, ContentType) == [Str("text/plain")] && Values(r, ContentLanguage) == [Str("en")]
  {
    var t := [Field(ContentType, [Str("text/plain")])];
    var s := [Field(ContentType, [Str("text/plain"), Str("text/html")]), Field(ContentLanguage, [Str("en")])];
    assert DistinctNames(s);
    CopyToEffect(s, t, Flags(true, true, true), ContentType);
    CopyToEffect(s, t, Flags(true, true, true), ContentLanguage);
    FindIs(s, ContentType, Some(0));
    FindIs(s, ContentLanguage, Some(1));
    FindIs(t, ContentType, Some(0));
    FindIs(t, ContentLanguage, None);
    KnownSingleValued();
  }
}
