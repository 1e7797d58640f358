/** The content-header store of an HTTP message (`HttpContentHeaders`):
    an ordered list of fields whose names compare case-insensitively, each
    holding parsed values. Content-Length holds a number, every other header
    holds text. */
module Headers {
  import opened Wrappers
  import Text

  datatype HeaderValue = Str(text: string) | Num(n: nat)
  datatype Field = Field(name: string, values: seq<HeaderValue>)
  type Headers = seq<Field>

  const Allow: string := "Allow"
  const ContentDisposition: string := "Content-Disposition"
  const ContentEncoding: string := "Content-Encoding"
  const ContentLanguage: string := "Content-Language"
  const ContentLength: string := "Content-Length"
  const ContentLocation: string := "Content-Location"
  const ContentMD5: string := "Content-MD5"
  const ContentRange: string := "Content-Range"
  const ContentType: string := "Content-Type"
  const Expires: string := "Expires"
  const LastModified: string := "Last-Modified"

  predicate SameName(a: string, b: string) {
    Text.EqualsIgnoreCase(a, b)
  }

  /** Known content headers that admit a single value. */
  predicate SingleValued(name: string) {
    var l := Text.Lower(name);
    l in {"content-length", "content-type", "content-disposition", "content-location",
          "content-md5", "content-range", "expires", "last-modified"}
  }

  /** How the known header names fold to lower case. */
  lemma KnownNames()
    ensures Text.Lower(Allow) == "allow"
    ensures Text.Lower(ContentDisposition) == "content-disposition"
    ensures Text.Lower(ContentEncoding) == "content-encoding"
    ensures Text.Lower(ContentLanguage) == "content-language"
    ensures Text.Lower(ContentLength) == "content-length"
    ensures Text.Lower(ContentLocation) == "content-location"
    ensures Text.Lower(ContentMD5) == "content-md5"
    ensures Text.Lower(ContentRange) == "content-range"
    ensures Text.Lower(ContentType) == "content-type"
    ensures Text.Lower(Expires) == "expires"
    ensures Text.Lower(LastModified) == "last-modified"
  {
  }

  /** Which of the known content headers are single-valued. */
  lemma KnownSingleValued()
    ensures !SingleValued(Allow) && !SingleValued(ContentEncoding) && !SingleValued(ContentLanguage)
    ensures SingleValued(ContentDisposition) && SingleValued(ContentLength) && SingleValued(ContentLocation)
    ensures SingleValued(ContentMD5) && SingleValued(ContentRange) && SingleValued(ContentType)
    ensures SingleValued(Expires) && SingleValued(LastModified)
  {
    KnownNames();
  }

  /** The parser of a header accepts the value: Content-Length takes a
      number, every other header takes text. */
  predicate Accepts(name: string, v: HeaderValue) {
    if SameName(name, ContentLength) then v.Num? else v.Str?
  }

  /** Header names differ pairwise. */
  predicate DistinctNames(h: Headers) {
    forall i, j :: 0 <= i < j < |h| ==> !SameName(h[i].name, h[j].name)
  }

  /** A store the typed setters and validated adds can produce. */
  predicate WellFormed(h: Headers) {
    && DistinctNames(h)
    && forall i :: 0 <= i < |h| ==>
         && |h[i].values| > 0
         && (SingleValued(h[i].name) ==> |h[i].values| == 1)
         && forall v :: v in h[i].values ==> Accepts(h[i].name, v)
  }

  /** Position of the field called `name` at or after `i`. */
  function FindFrom(h: Headers, name: string, i: nat): (r: Option<nat>)
    requires i <= |h|
    decreases |h| - i
    ensures r.Some? ==> i <= r.value < |h| && SameName(h[r.value].name, name)
    ensures r.Some? ==> forall j :: i <= j < r.value ==> !SameName(h[j].name, name)
    ensures r.None? ==> forall j :: i <= j < |h| ==> !SameName(h[j].name, name)
  {
    if i == |h| then None
    else if SameName(h[i].name, name) then Some(i)
    else FindFrom(h, name, i + 1)
  }

  function Find(h: Headers, name: string): Option<nat> {
    FindFrom(h, name, 0)
  }

  /** `Contains(name)`. */
  predicate Has(h: Headers, name: string) {
    Find(h, name).Some?
  }

  /** `GetValues(name)`, empty when the header is absent. */
  function Values(h: Headers, name: string): seq<HeaderValue> {
    match Find(h, name)
    case Some(i) => h[i].values
    case None => []
  }

  /** Find is pinned down by its contract: the first matching position. */
  lemma FindIs(h: Headers, name: string, k: Option<nat>)
    requires k.Some? ==> k.value < |h| && SameName(h[k.value].name, name)
    requires k.Some? ==> forall j :: 0 <= j < k.value ==> !SameName(h[j].name, name)
    requires k.None? ==> forall j :: 0 <= j < |h| ==> !SameName(h[j].name, name)
    ensures Find(h, name) == k
  {
  }

  /** Lookup does not tell apart names that differ only in letter case. */
  lemma FindSameName(h: Headers, a: string, b: string)
    requires SameName(a, b)
    ensures Find(h, a) == Find(h, b)
  {
    FindIs(h, b, Find(h, a));
  }

  /** Replacing a field by one of the same name leaves every lookup's position alone. */
  lemma FindAfterUpdate(h: Headers, i: nat, f: Field, m: string)
    requires i < |h| && f.name == h[i].name
    ensures Find(h[i := f], m) == Find(h, m)
  {
    FindIs(h[i := f], m, Find(h, m));
  }

  /** Appending a field of another name leaves a lookup alone; appending the
      first field of that name makes it the match. */
  lemma FindAfterAppend(h: Headers, f: Field, m: string)
    ensures !SameName(f.name, m) ==> Find(h + [f], m) == Find(h, m)
    ensures SameName(f.name, m) && Find(h, m).None? ==> Find(h + [f], m) == Some(|h|)
  {
    if !SameName(f.name, m) {
      FindIs(h + [f], m, Find(h, m));
    } else if Find(h, m).None? {
      FindIs(h + [f], m, Some(|h|));
    }
  }

  /** The text values of Content-Encoding, in order. */
  function Encodings(h: Headers): seq<string> {
    Texts(Values(h, ContentEncoding))
  }

  function Texts(vs: seq<HeaderValue>): (r: seq<string>)
    ensures |r| <= |vs|
  {
    if vs == [] then []
    else if vs[0].Str? then [vs[0].text] + Texts(vs[1..])
    else Texts(vs[1..])
  }

  lemma TextsAppend(a: seq<HeaderValue>, b: seq<HeaderValue>)
    ensures Texts(a + b) == Texts(a) + Texts(b)
  {
    if a != [] {
      assert (a + b)[0] == a[0];
      assert (a + b)[1..] == a[1..] + b;
      TextsAppend(a[1..], b);
    } else {
      assert a + b == b;
    }
  }

  /** The stored Content-Length, if any. */
  function StoredLength(h: Headers): Option<nat> {
    var vs := Values(h, ContentLength);
    if vs != [] && vs[0].Num? then Some(vs[0].n) else None
  }

  // ---------------------------------------------------------------------
  // Adding values (`HttpHeaders.Add(name, values)`)
  // ---------------------------------------------------------------------

  /** `h'` holds every field of `h`, in place and under the same name:
      adding values never moves or drops a header. */
  predicate KeepsFields(h': Headers, h: Headers) {
    |h'| >= |h| && forall i :: 0 <= i < |h| ==> h'[i].name == h[i].name
  }

  /** Adds one value; None when the header rejects it (it is single-valued and
      already holds a value, or the value does not parse). */
  function AddValue(h: Headers, name: string, v: HeaderValue): (r: Option<Headers>)
    ensures r.Some? ==> Accepts(name, v)
    ensures SingleValued(name) && Has(h, name) ==> r.None?
    ensures r.Some? ==> KeepsFields(r.value, h) && |r.value| == if Has(h, name) then |h| else |h| + 1
  {
    if !Accepts(name, v) then None
    else match Find(h, name)
      case None => Some(h + [Field(name, [v])])
      case Some(i) =>
        if SingleValued(name) then None
        else Some(h[i := Field(h[i].name, h[i].values + [v])])
  }

  /** `Add(name, values)`: adds the values in order and stops at the first one
      rejected; values added before it stay. */
  function AddValues(h: Headers, name: string, vs: seq<HeaderValue>): (r: Headers)
    ensures KeepsFields(r, h)
    decreases |vs|
  {
    if vs == [] then h
    else match AddValue(h, name, vs[0])
      case None => h
      case Some(h') => AddValues(h', name, vs[1..])
  }

  /** What the values of one header become when `vs` is added to `existing`. */
  function Appended(name: string, existing: seq<HeaderValue>, vs: seq<HeaderValue>): seq<HeaderValue>
    decreases |vs|
  {
    if vs == [] then existing
    else if !Accepts(name, vs[0]) || (SingleValued(name) && existing != []) then existing
    else Appended(name, existing + [vs[0]], vs[1..])
  }

  /** A header present in the store holds at least one value. */
  predicate NonEmptyFields(h: Headers) {
    forall i :: 0 <= i < |h| ==> |h[i].values| > 0
  }

  lemma SameNameRules(a: string, b: string)
    requires SameName(a, b)
    ensures SingleValued(a) == SingleValued(b)
    ensures forall v :: Accepts(a, v) == Accepts(b, v)
  {
  }

  /** What a well-formed store holds under any name: acceptable values, at
      most one for a single-valued header. */
  lemma WellFormedValues(h: Headers, name: string)
    requires WellFormed(h)
    ensures forall v :: v in Values(h, name) ==> Accepts(name, v)
    ensures SingleValued(name) ==> |Values(h, name)| <= 1
  {
    match Find(h, name) {
      case None =>
      case Some(i) => SameNameRules(h[i].name, name);
    }
  }

  /** When one `AddValue` is rejected. */
  lemma AddValueRejects(h: Headers, name: string, v: HeaderValue)
    requires NonEmptyFields(h)
    ensures AddValue(h, name, v).None? <==> (!Accepts(name, v) || (SingleValued(name) && Values(h, name) != []))
  {
  }

  /** An accepted `AddValue` appends to the named header. */
  lemma AddValueSame(h: Headers, name: string, v: HeaderValue, h': Headers, m: string)
    requires AddValue(h, name, v) == Some(h')
    requires SameName(m, name)
    ensures Values(h', m) == Values(h, name) + [v]
    ensures Has(h', m)
  {
    FindSameName(h, m, name);
    FindSameName(h', m, name);
    match Find(h, name) {
      case None =>
        FindAfterAppend(h, Field(name, [v]), name);
      case Some(i) =>
        FindAfterUpdate(h, i, Field(h[i].name, h[i].values + [v]), name);
    }
  }

  /** An accepted `AddValue` leaves every other header alone. */
  lemma AddValueOther(h: Headers, name: string, v: HeaderValue, h': Headers, m: string)
    requires AddValue(h, name, v) == Some(h')
    requires !SameName(m, name)
    ensures Values(h', m) == Values(h, m)
    ensures Has(h', m) == Has(h, m)
  {
    match Find(h, name) {
      case None =>
        FindAfterAppend(h, Field(name, [v]), m);
      case Some(i) =>
        FindAfterUpdate(h, i, Field(h[i].name, h[i].values + [v]), m);
    }
  }

  lemma AddValueNonEmpty(h: Headers, name: string, v: HeaderValue, h': Headers)
    requires NonEmptyFields(h)
    requires AddValue(h, name, v) == Some(h')
    ensures NonEmptyFields(h')
  {
  }

  /** Effect of `Add(name, values)` on every lookup: the named header gets the
      accepted prefix of the values, every other header is untouched. */
  lemma {:induction false} AddValuesEffect(h: Headers, name: string, vs: seq<HeaderValue>, m: string)
    requires NonEmptyFields(h)
    ensures NonEmptyFields(AddValues(h, name, vs))
    ensures SameName(m, name) ==> Values(AddValues(h, name, vs), m) == Appended(name, Values(h, name), vs)
    ensures SameName(m, name) ==> Has(AddValues(h, name, vs), m) == (Has(h, m) || Appended(name, Values(h, name), vs) != [])
    ensures !SameName(m, name) ==> Values(AddValues(h, name, vs), m) == Values(h, m)
    ensures !SameName(m, name) ==> Has(AddValues(h, name, vs), m) == Has(h, m)
    decreases |vs|
  {
    if SameName(m, name) { FindSameName(h, m, name); }
    if vs != [] {
      AddValueRejects(h, name, vs[0]);
      match AddValue(h, name, vs[0]) {
        case None =>
          if SameName(m, name) && Has(h, m) { assert Values(h, name) != []; }
        case Some(h') =>
          AddValueNonEmpty(h, name, vs[0], h');
          if SameName(m, name) {
            AddValueSame(h, name, vs[0], h', m);
            AddValueSame(h, name, vs[0], h', name);
          } else {
            AddValueOther(h, name, vs[0], h', m);
          }
          AddValuesEffect(h', name, vs[1..], m);
      }
    } else if SameName(m, name) && Has(h, m) {
      assert Values(h, name) != [];
    }
  }

  /** Adding well-formed values to an absent header stores exactly them. */
  lemma {:induction false} AppendedAll(name: string, existing: seq<HeaderValue>, vs: seq<HeaderValue>)
    requires forall v :: v in vs ==> Accepts(name, v)
    requires SingleValued(name) ==> |existing| + |vs| <= 1
    ensures Appended(name, existing, vs) == existing + vs
    decreases |vs|
  {
    if vs != [] {
      assert vs == [vs[0]] + vs[1..];
      AppendedAll(name, existing + [vs[0]], vs[1..]);
    }
  }

  // ---------------------------------------------------------------------
  // Typed setters and raw adds
  // ---------------------------------------------------------------------

  /** Drops the field called `name`. */
  function Remove(h: Headers, name: string): Headers {
    match Find(h, name)
    case None => h
    case Some(i) => h[..i] + h[i + 1..]
  }

  /** A typed single-value property setter (`Headers.ContentType = x`):
      stores `[x]`, or removes the header when `x` is null. */
  function Set(h: Headers, name: string, v: Option<HeaderValue>): (r: Headers)
    ensures v.Some? ==> KeepsFields(r, h) && |r| == if Has(h, name) then |h| else |h| + 1
    ensures v.None? ==> |r| == if Has(h, name) then |h| - 1 else |h|
  {
    match v
    case None => Remove(h, name)
    case Some(x) =>
      match Find(h, name)
      case None => h + [Field(name, [x])]
      case Some(i) => h[i := Field(h[i].name, [x])]
  }

  lemma RemoveEffect(h: Headers, name: string, m: string)
    requires DistinctNames(h)
    ensures SameName(m, name) ==> Values(Remove(h, name), m) == []
    ensures !SameName(m, name) ==> Values(Remove(h, name), m) == Values(h, m)
  {
    if SameName(m, name) { FindSameName(h, m, name); }
    match Find(h, name) {
      case None =>
      case Some(i) =>
        var r := h[..i] + h[i + 1..];
        assert forall j :: 0 <= j < i ==> r[j] == h[j];
        assert forall j :: i <= j < |r| ==> r[j] == h[j + 1];
        if SameName(m, name) {
          FindIs(r, m, None);
        } else {
          match Find(h, m) {
            case None =>
              FindIs(r, m, None);
            case Some(k) =>
              if k < i {
                FindIs(r, m, Some(k));
              } else {
                FindIs(r, m, Some(k - 1));
              }
          }
        }
    }
  }

  lemma SetEffect(h: Headers, name: string, v: Option<HeaderValue>, m: string)
    requires DistinctNames(h)
    ensures NonEmptyFields(h) ==> NonEmptyFields(Set(h, name, v))
    ensures SameName(m, name) ==> Values(Set(h, name, v), m) == (if v.Some? then [v.value] else [])
    ensures !SameName(m, name) ==> Values(Set(h, name, v), m) == Values(h, m)
  {
    if SameName(m, name) { FindSameName(h, m, name); }
    match v {
      case None =>
        RemoveEffect(h, name, m);
      case Some(x) =>
        match Find(h, name) {
          case None =>
            FindAfterAppend(h, Field(name, [x]), m);
          case Some(i) =>
            FindAfterUpdate(h, i, Field(h[i].name, [x]), m);
        }
    }
  }

  /** `TryAddWithoutValidation(name, values)`: appends the values unchecked. */
  function AddRaw(h: Headers, name: string, vs: seq<HeaderValue>): Headers {
    if vs == [] then h
    else match Find(h, name)
      case None => h + [Field(name, vs)]
      case Some(i) => h[i := Field(h[i].name, h[i].values + vs)]
  }

  lemma AddRawEffect(h: Headers, name: string, vs: seq<HeaderValue>, m: string)
    ensures NonEmptyFields(h) ==> NonEmptyFields(AddRaw(h, name, vs))
    ensures SameName(m, name) ==> Values(AddRaw(h, name, vs), m) == Values(h, name) + vs
    ensures !SameName(m, name) ==> Values(AddRaw(h, name, vs), m) == Values(h, m)
  {
    if SameName(m, name) { FindSameName(h, m, name); }
    if vs != [] {
      match Find(h, name) {
        case None => FindAfterAppend(h, Field(name, vs), m);
        case Some(i) => FindAfterUpdate(h, i, Field(h[i].name, h[i].values + vs), m);
      }
    }
  }

  // ---------------------------------------------------------------------
  // Every update keeps the names distinct
  // ---------------------------------------------------------------------

  lemma AppendNewDistinct(h: Headers, f: Field)
    requires DistinctNames(h) && Find(h, f.name).None?
    ensures DistinctNames(h + [f])
  {
  }

  lemma UpdateDistinct(h: Headers, i: nat, f: Field)
    requires DistinctNames(h) && i < |h| && f.name == h[i].name
    ensures DistinctNames(h[i := f])
  {
  }

  lemma {:induction false} AddValuesDistinct(h: Headers, name: string, vs: seq<HeaderValue>)
    requires DistinctNames(h)
    ensures DistinctNames(AddValues(h, name, vs))
    decreases |vs|
  {
    if vs != [] && AddValue(h, name, vs[0]).Some? {
      match Find(h, name) {
        case None => AppendNewDistinct(h, Field(name, [vs[0]]));
        case Some(i) => UpdateDistinct(h, i, Field(h[i].name, h[i].values + [vs[0]]));
      }
      AddValuesDistinct(AddValue(h, name, vs[0]).value, name, vs[1..]);
    }
  }

  lemma SetDistinct(h: Headers, name: string, v: Option<HeaderValue>)
    requires DistinctNames(h)
    ensures DistinctNames(Set(h, name, v))
  {
    match v {
      case None =>
        match Find(h, name) {
          case None =>
          case Some(i) =>
            var r := h[..i] + h[i + 1..];
            forall a, b | 0 <= a < b < |r| ensures !SameName(r[a].name, r[b].name) {
              var a' := if a < i then a else a + 1;
              var b' := if b < i then b else b + 1;
              assert r[a] == h[a'] && r[b] == h[b'];
            }
        }
      case Some(x) =>
        match Find(h, name) {
          case None => AppendNewDistinct(h, Field(name, [x]));
          case Some(i) => UpdateDistinct(h, i, Field(h[i].name, [x]));
        }
    }
  }

  lemma AddRawDistinct(h: Headers, name: string, vs: seq<HeaderValue>)
    requires DistinctNames(h)
    ensures DistinctNames(AddRaw(h, name, vs))
  {
    if vs != [] {
      match Find(h, name) {
        case None => AppendNewDistinct(h, Field(name, vs));
        case Some(i) => UpdateDistinct(h, i, Field(h[i].name, h[i].values + vs));
      }
    }
  }

  /** The first value of a single-valued header, as its typed property reads it. */
  function First(h: Headers, name: string): (r: Option<HeaderValue>)
    ensures r.Some? <==> Values(h, name) != []
    ensures r.Some? ==> r.value == Values(h, name)[0]
  {
    var vs := Values(h, name);
    if vs == [] then None else Some(vs[0])
  }

  /** Setting a header leaves every other header's values alone. */
  lemma SetKeepsOthers(h: Headers, name: string, x: HeaderValue, m: string)
    requires !SameName(m, name)
    ensures Values(Set(h, name, Some(x)), m) == Values(h, m)
  {
    match Find(h, name) {
      case None => FindAfterAppend(h, Field(name, [x]), m);
      case Some(i) => FindAfterUpdate(h, i, Field(h[i].name, [x]), m);
    }
  }

  /** Setting an acceptable value keeps a store well-formed. */
  lemma SetWellFormed(h: Headers, name: string, x: HeaderValue)
    requires WellFormed(h) && Accepts(name, x)
    ensures WellFormed(Set(h, name, Some(x)))
  {
    SetDistinct(h, name, Some(x));
    match Find(h, name) {
      case None =>
      case Some(i) => SameNameRules(h[i].name, name);
    }
  }
}
