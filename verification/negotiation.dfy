/** Choosing a compressor from an Accept-Encoding header, as every handler
    does (section 14.3 of RFC 2616): the query

        from encoding in AcceptEncoding
        let quality = encoding.Quality ?? 1.0
        where quality > 0
        join c in Compressors on lower(encoding.Value) equals lower(c.EncodingType)
        orderby quality descending
        select c

    followed by `FirstOrDefault()`. The join pairs each entry with every
    compressor of the same token, entries in header order and compressors in
    registration order; the sort is stable. The chosen compressor is the one
    of the first pair, in that order, with the highest quality. Also here:
    the wildcard rule of the base server handler and the compressor lookup
    used for decompression. */
module Negotiation {
  import opened Wrappers
  import opened Codecs
  import Text

  /** A quality value in thousandths: q=0.5 is 500. */
  type Quality = q: int | 0 <= q <= 1000

  /** One Accept-Encoding entry (`StringWithQualityHeaderValue`). */
  datatype Coding = Coding(value: string, quality: Option<Quality>)

  /** `encoding.Quality ?? 1.0`. */
  function Weight(c: Coding): Quality {
    c.quality.GetOr(1000)
  }

  /** The join condition: tokens equal after lower-casing. */
  predicate Matches(c: Coding, compressor: Compressor) {
    Text.Lower(c.value) == Text.Lower(compressor.encodingType)
  }

  // ---------------------------------------------------------------------
  // The declarative rule
  // ---------------------------------------------------------------------

  /** Entry `i` accepts compressor `k`: positive quality, same token. */
  predicate Acceptable(accept: seq<Coding>, compressors: seq<Compressor>, i: int, k: int) {
    0 <= i < |accept| && 0 <= k < |compressors| && Weight(accept[i]) > 0 && Matches(accept[i], compressors[k])
  }

  /** Pair (i, k) comes before pair (i', k') in join order. */
  predicate PairBefore(i: int, k: int, i': int, k': int) {
    i < i' || (i == i' && k < k')
  }

  /** Pair (i, k) is the one the query selects: acceptable, of maximal
      quality, and the first of that quality in join order. */
  ghost predicate Chosen(accept: seq<Coding>, compressors: seq<Compressor>, i: int, k: int) {
    && Acceptable(accept, compressors, i, k)
    && (forall i', k' :: Acceptable(accept, compressors, i', k') ==> Weight(accept[i']) <= Weight(accept[i]))
    && (forall i', k' :: Acceptable(accept, compressors, i', k') && PairBefore(i', k', i, k) ==>
          Weight(accept[i']) < Weight(accept[i]))
  }

  // ---------------------------------------------------------------------
  // The query: join, stable descending sort, first element
  // ---------------------------------------------------------------------

  /** One row of the join: the entry's quality, its position and the
      position of the compressor. */
  datatype Pair = Pair(weight: Quality, entry: nat, index: nat)

  predicate Before(a: Pair, b: Pair) {
    PairBefore(a.entry, a.index, b.entry, b.index)
  }

  predicate Ordered(ps: seq<Pair>) {
    forall a, b :: 0 <= a < b < |ps| ==> Before(ps[a], ps[b])
  }

  /** The rows entry `i` contributes, compressors from `j` on. */
  function Rows(accept: seq<Coding>, compressors: seq<Compressor>, i: nat, j: nat): (r: seq<Pair>)
    requires i < |accept| && j <= |compressors|
    ensures forall p :: p in r <==>
              p.entry == i && j <= p.index && Acceptable(accept, compressors, i, p.index) && p.weight == Weight(accept[i])
    ensures Ordered(r)
    decreases |compressors| - j
  {
    if j == |compressors| then []
    else
      var rest := Rows(accept, compressors, i, j + 1);
      if Acceptable(accept, compressors, i, j) then [Pair(Weight(accept[i]), i, j)] + rest else rest
  }

  /** The join, entries from `i` on. */
  function Join(accept: seq<Coding>, compressors: seq<Compressor>, i: nat): (r: seq<Pair>)
    requires i <= |accept|
    ensures forall p :: p in r <==>
              i <= p.entry && Acceptable(accept, compressors, p.entry, p.index) && p.weight == Weight(accept[p.entry])
    ensures Ordered(r)
    decreases |accept| - i
  {
    if i == |accept| then []
    else
      var row := Rows(accept, compressors, i, 0);
      var rest := Join(accept, compressors, i + 1);
      assert forall a, b :: 0 <= a < |row| <= b < |row + rest| ==> Before((row + rest)[a], (row + rest)[b]) by {
        forall a, b | 0 <= a < |row| <= b < |row + rest| ensures Before((row + rest)[a], (row + rest)[b]) {
          assert (row + rest)[a] == row[a] && row[a] in row;
          assert (row + rest)[b] == rest[b - |row|] && rest[b - |row|] in rest;
        }
      }
      row + rest
  }

  /** `orderby quality descending`: a stable sort, built by inserting each
      element in front of the first one it is not lighter than. */
  function Insert(p: Pair, s: seq<Pair>): seq<Pair> {
    if s == [] || p.weight >= s[0].weight then [p] + s
    else [s[0]] + Insert(p, s[1..])
  }

  function SortDescending(ps: seq<Pair>): seq<Pair> {
    if ps == [] then [] else Insert(ps[0], SortDescending(ps[1..]))
  }

  /** `FirstOrDefault()`. */
  function FirstOrDefault<T>(s: seq<T>): (r: Option<T>)
    ensures r.Some? <==> s != []
    ensures r.Some? ==> r.value == s[0]
  {
    if s == [] then None else Some(s[0])
  }

  /** The query; the chosen compressor's position. */
  function Negotiate(accept: seq<Coding>, compressors: seq<Compressor>): (r: Option<nat>)
    ensures r.Some? ==> r.value < |compressors|
  {
    match FirstOrDefault(SortDescending(Join(accept, compressors, 0)))
    case None => None
    case Some(p) =>
      SortKeepsElements(Join(accept, compressors, 0));
      assert p in Join(accept, compressors, 0) by {
        assert p in multiset(SortDescending(Join(accept, compressors, 0)));
      }
      Some(p.index)
  }

  // ---------------------------------------------------------------------
  // The sort
  // ---------------------------------------------------------------------

  lemma {:induction false} InsertKeepsElements(p: Pair, s: seq<Pair>)
    ensures multiset(Insert(p, s)) == multiset([p] + s)
  {
    if s != [] && p.weight < s[0].weight {
      InsertKeepsElements(p, s[1..]);
      assert s == [s[0]] + s[1..];
    }
  }

  /** The sort is a permutation. */
  lemma {:induction false} SortKeepsElements(ps: seq<Pair>)
    ensures multiset(SortDescending(ps)) == multiset(ps)
  {
    if ps != [] {
      SortKeepsElements(ps[1..]);
      InsertKeepsElements(ps[0], SortDescending(ps[1..]));
      assert ps == [ps[0]] + ps[1..];
    }
  }

  predicate Descending(s: seq<Pair>) {
    forall a, b :: 0 <= a < b < |s| ==> s[a].weight >= s[b].weight
  }

  lemma {:induction false} InsertDescending(p: Pair, s: seq<Pair>)
    requires Descending(s)
    ensures Descending(Insert(p, s))
    ensures Insert(p, s) != [] && Insert(p, s)[0] == (if s == [] || p.weight >= s[0].weight then p else s[0])
  {
    if s != [] && p.weight < s[0].weight {
      InsertDescending(p, s[1..]);
      var t := Insert(p, s[1..]);
      assert t[0].weight <= s[0].weight;
      var r := [s[0]] + t;
      forall a, b | 0 <= a < b < |r| ensures r[a].weight >= r[b].weight {
        assert r[b] == t[b - 1];
        if a > 0 {
          assert r[a] == t[a - 1];
        } else {
          assert t[0].weight >= t[b - 1].weight || b - 1 == 0;
        }
      }
    }
  }

  /** The sort orders by non-increasing quality. */
  lemma {:induction false} SortDescends(ps: seq<Pair>)
    ensures Descending(SortDescending(ps))
  {
    if ps != [] {
      SortDescends(ps[1..]);
      InsertDescending(ps[0], SortDescending(ps[1..]));
    }
  }

  /** The first pair of maximal quality: the reference for what the stable
      sort puts in front. */
  function FirstMax(ps: seq<Pair>): (r: Option<nat>)
    ensures r.Some? <==> ps != []
    ensures r.Some? ==> r.value < |ps|
    ensures r.Some? ==> forall j :: 0 <= j < |ps| ==> ps[j].weight <= ps[r.value].weight
    ensures r.Some? ==> forall j :: 0 <= j < r.value ==> ps[j].weight < ps[r.value].weight
  {
    if ps == [] then None
    else match FirstMax(ps[1..])
      case None => Some(0)
      case Some(j) => if ps[0].weight >= ps[j + 1].weight then Some(0) else Some(j + 1)
  }

  /** A stable descending sort puts the first pair of maximal quality in front. */
  lemma {:induction false} SortFront(ps: seq<Pair>)
    requires ps != []
    ensures SortDescending(ps) != [] && SortDescending(ps)[0] == ps[FirstMax(ps).value]
  {
    var rest := SortDescending(ps[1..]);
    if ps[1..] == [] {
      assert rest == [];
    } else {
      SortFront(ps[1..]);
      var j := FirstMax(ps[1..]).value;
      assert rest[0] == ps[j + 1];
    }
  }

  // ---------------------------------------------------------------------
  // The query selects the chosen pair
  // ---------------------------------------------------------------------

  /** At most one pair is chosen. */
  lemma ChosenUnique(accept: seq<Coding>, compressors: seq<Compressor>, i: int, k: int, i': int, k': int)
    requires Chosen(accept, compressors, i, k) && Chosen(accept, compressors, i', k')
    ensures i == i' && k == k'
  {
  }

  /** What the query returns is a chosen pair's compressor. */
  lemma NegotiateSound(accept: seq<Coding>, compressors: seq<Compressor>)
    requires Negotiate(accept, compressors).Some?
    ensures exists i :: Chosen(accept, compressors, i, Negotiate(accept, compressors).value)
  {
    var js := Join(accept, compressors, 0);
    SortFront(js);
    var m := FirstMax(js).value;
    var p := js[m];
    assert p in js;
    forall i', k' | Acceptable(accept, compressors, i', k')
      ensures Weight(accept[i']) <= Weight(accept[p.entry])
      ensures PairBefore(i', k', p.entry, p.index) ==> Weight(accept[i']) < Weight(accept[p.entry])
    {
      var q := Pair(Weight(accept[i']), i', k');
      assert q in js;
      var b :| 0 <= b < |js| && js[b] == q;
    }
    assert Chosen(accept, compressors, p.entry, p.index);
  }

  /** The query returns nothing exactly when no entry accepts any compressor. */
  lemma NegotiateNone(accept: seq<Coding>, compressors: seq<Compressor>)
    ensures Negotiate(accept, compressors).None? <==>
              forall i, k :: !Acceptable(accept, compressors, i, k)
  {
    var js := Join(accept, compressors, 0);
    SortKeepsElements(js);
    if js != [] {
      assert js[0] in js;
      assert js[0] in multiset(SortDescending(js));
    }
    forall i, k | Acceptable(accept, compressors, i, k) ensures js != [] {
      assert Pair(Weight(accept[i]), i, k) in js;
    }
  }

  /** The query returns compressor `k` exactly when some entry makes (i, k)
      the chosen pair. */
  lemma NegotiateSpec(accept: seq<Coding>, compressors: seq<Compressor>, k: int)
    ensures Negotiate(accept, compressors) == Some(k) <==> exists i :: Chosen(accept, compressors, i, k)
  {
    NegotiateNone(accept, compressors);
    if Negotiate(accept, compressors).Some? {
      NegotiateSound(accept, compressors);
      var k0 := Negotiate(accept, compressors).value;
      var i0 :| Chosen(accept, compressors, i0, k0);
      if i :| Chosen(accept, compressors, i, k) {
        ChosenUnique(accept, compressors, i0, k0, i, k);
      }
    }
  }

  // ---------------------------------------------------------------------
  // Consequences
  // ---------------------------------------------------------------------

  /** `Accept-Encoding: gzip;q=0.5, deflate;q=0.9, br` with gzip and
      deflate registered: deflate is chosen, br matches nothing. */
  lemma PrefersHigherQuality(gzip: Compressor, deflate: Compressor)
    requires gzip.encodingType == "gzip" && deflate.encodingType == "deflate"
    ensures Negotiate([Coding("gzip", Some(500)), Coding("deflate", Some(900)), Coding("br", None)], [gzip, deflate]) == Some(1)
  {
    var accept := [Coding("gzip", Some(500)), Coding("deflate", Some(900)), Coding("br", None)];
    var cs := [gzip, deflate];
    LowerKnownTokens();
    assert Chosen(accept, cs, 1, 1) by {
      forall i', k' | Acceptable(accept, cs, i', k') ensures (i' == 0 && k' == 0) || (i' == 1 && k' == 1) {
      }
    }
    NegotiateSpec(accept, cs, 1);
  }

  /** Equal qualities: the earlier entry wins, whatever the registration order. */
  lemma TieGoesToEarlierEntry(gzip: Compressor, deflate: Compressor)
    requires gzip.encodingType == "gzip" && deflate.encodingType == "deflate"
    ensures Negotiate([Coding("deflate", None), Coding("gzip", None)], [gzip, deflate]) == Some(1)
  {
    var accept := [Coding("deflate", None), Coding("gzip", None)];
    var cs := [gzip, deflate];
    LowerKnownTokens();
    assert Chosen(accept, cs, 0, 1) by {
      forall i', k' | Acceptable(accept, cs, i', k') ensures (i' == 0 && k' == 1) || (i' == 1 && k' == 0) {
      }
    }
    NegotiateSpec(accept, cs, 1);
  }

  /** Tokens match regardless of letter case; q=0 refuses. */
  lemma CaseAndRefusal(gzip: Compressor)
    requires gzip.encodingType == "gzip"
    ensures Negotiate([Coding("GZIP", None)], [gzip]) == Some(0)
    ensures Negotiate([Coding("gzip", Some(0))], [gzip]) == None
  {
    LowerKnownTokens();
    assert Text.Lower("GZIP") == "gzip";
    assert Chosen([Coding("GZIP", None)], [gzip], 0, 0);
    NegotiateSpec([Coding("GZIP", None)], [gzip], 0);
    NegotiateNone([Coding("gzip", Some(0))], [gzip]);
  }

  lemma LowerKnownTokens()
    ensures Text.Lower("gzip") == "gzip" && Text.Lower("deflate") == "deflate" && Text.Lower("br") == "br"
  {
  }

  // ---------------------------------------------------------------------
  // The wildcard rule of the base server handler
  // ---------------------------------------------------------------------

  /** Some entry's token is exactly "*" (compared case-sensitively, at any
      quality, q=0 included). */
  predicate HasWildcard(accept: seq<Coding>) {
    exists i :: 0 <= i < |accept| && accept[i].value == "*"
  }

  /** With a "*" entry the first registered compressor is used; otherwise
      the query decides. */
  function NegotiateWithWildcard(accept: seq<Coding>, compressors: seq<Compressor>): (r: Option<nat>)
    ensures HasWildcard(accept) ==> (r.Some? <==> compressors != []) && (r.Some? ==> r.value == 0)
    ensures !HasWildcard(accept) ==> r == Negotiate(accept, compressors)
  {
    if HasWildcard(accept) then (if compressors == [] then None else Some(0))
    else Negotiate(accept, compressors)
  }

  /** "*;q=0" still selects the first compressor, even over a refused token. */
  lemma WildcardIgnoresQuality(gzip: Compressor, deflate: Compressor)
    ensures NegotiateWithWildcard([Coding("gzip", Some(0)), Coding("*", Some(0))], [gzip, deflate]) == Some(0)
  {
    assert [Coding("gzip", Some(0)), Coding("*", Some(0))][1].value == "*";
  }

  // ---------------------------------------------------------------------
  // Lookup for decompression
  // ---------------------------------------------------------------------

  /** `Compressors.FirstOrDefault(c => c.EncodingType.Equals(token, OrdinalIgnoreCase))`. */
  function FindCompressor(token: string, compressors: seq<Compressor>, from: nat := 0): (r: Option<nat>)
    requires from <= |compressors|
    ensures r.Some? ==> from <= r.value < |compressors| && Text.EqualsIgnoreCase(compressors[r.value].encodingType, token)
    ensures r.Some? ==> forall j :: from <= j < r.value ==> !Text.EqualsIgnoreCase(compressors[j].encodingType, token)
    ensures r.None? ==> forall j :: from <= j < |compressors| ==> !Text.EqualsIgnoreCase(compressors[j].encodingType, token)
    decreases |compressors| - from
  {
    if from == |compressors| then None
    else if Text.EqualsIgnoreCase(compressors[from].encodingType, token) then Some(from)
    else FindCompressor(token, compressors, from + 1)
  }

  /** The lookup and the query agree on a single entry of positive quality. */
  lemma LookupAgreesWithQuery(token: string, compressors: seq<Compressor>)
    ensures Negotiate([Coding(token, None)], compressors) == FindCompressor(token, compressors)
  {
    var accept := [Coding(token, None)];
    match FindCompressor(token, compressors) {
      case None =>
        NegotiateNone(accept, compressors);
        assert forall i, k :: !Acceptable(accept, compressors, i, k);
      case Some(k) =>
        assert Chosen(accept, compressors, 0, k);
        NegotiateSpec(accept, compressors, k);
    }
  }
}
