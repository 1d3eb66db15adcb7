/** The signature base string of the OAuth 1.0 client: section 3.4.1 of RFC 5849. */
module OAuth {
  import opened Wrappers
  import opened Sequences
  import opened Percent
  import FormText
  import QueryString
  import QueryStringProof

  /** localeCompare(a, b) < 0, as a strict total order. */
  ghost predicate StrictTotalOrder(less: (Octets, Octets) -> bool) {
    && (forall a :: !less(a, a))
    && (forall a, b :: less(a, b) || less(b, a) || a == b)
    && (forall a, b, c :: less(a, b) && less(b, c) ==> less(a, c))
  }

  /** The comparison of two encoded pairs: by key, and by value under equal keys. */
  predicate PairLess(less: (Octets, Octets) -> bool, p: Pair, q: Pair) {
    if p.0 == q.0 then less(p.1, q.1) else less(p.0, q.0)
  }

  function Insert(less: (Octets, Octets) -> bool, p: Pair, sorted: seq<Pair>): seq<Pair> {
    if sorted == [] || !PairLess(less, sorted[0], p) then [p] + sorted
    else [sorted[0]] + Insert(less, p, sorted[1..])
  }

  /** Array.prototype.sort; SortIsUnique shows that any other way to sort gives the same array. */
  function Sort(less: (Octets, Octets) -> bool, ps: seq<Pair>): seq<Pair> {
    if ps == [] then [] else Insert(less, ps[0], Sort(less, ps[1..]))
  }

  function EncodePair(p: Pair): Pair {
    (Encode(p.0), Encode(p.1))
  }

  function EncodePairs(ps: seq<Pair>): seq<Pair> {
    Map(EncodePair, ps)
  }

  function JoinPair(p: Pair): Octets {
    Join([p.0, p.1], EQUALS)
  }

  function JoinPairs(ps: seq<Pair>): seq<Octets> {
    if ps == [] then [] else [JoinPair(ps[0])] + JoinPairs(ps[1..])
  }

  /** The parameters of a request: the query, the form body if it is one, and the OAuth ones. */
  datatype Request = Request(query: seq<Pair>, isForm: bool, form: seq<Pair>, oauth: seq<Pair>)
  {
    function All(): seq<Pair> {
      query + (if isForm then form else []) + oauth
    }
  }

  /** The string for a list of parameters. */
  function Normalised(less: (Octets, Octets) -> bool, ps: seq<Pair>): Octets {
    Join(JoinPairs(Sort(less, EncodePairs(ps))), AMPERSAND)
  }

  /** One of the three loops that push the encoded pairs. */
  method PushAll(result: seq<Pair>, params: seq<Pair>) returns (pushed: seq<Pair>)
    ensures pushed == result + EncodePairs(params)
  {
    pushed := result;
    for i := 0 to |params|
      invariant pushed == result + EncodePairs(params[..i])
    {
      assert params[..i + 1][..i] == params[..i];
      pushed := pushed + [EncodePair(params[i])];
    }
    assert params[..|params|] == params;
  }

  lemma AllEncoded(request: Request, formParams: seq<Pair>)
    requires formParams == if request.isForm then request.form else []
    ensures [] + EncodePairs(request.query) + EncodePairs(formParams) + EncodePairs(request.oauth)
            == EncodePairs(request.All())
  {
    MapConcat(EncodePair, request.query, formParams);
    MapConcat(EncodePair, request.query + formParams, request.oauth);
    assert [] + EncodePairs(request.query) == EncodePairs(request.query);
  }

  /** encodeParameters */
  method EncodeParameters(less: (Octets, Octets) -> bool, request: Request) returns (text: Octets)
    ensures text == Normalised(less, request.All())
  {
    var formParams: seq<Pair> := [];
    if request.isForm {
      formParams := request.form;
    }
    var result := PushAll([], request.query);
    result := PushAll(result, formParams);
    result := PushAll(result, request.oauth);
    AllEncoded(request, formParams);
    text := Join(JoinPairs(Sort(less, result)), AMPERSAND);
  }

  /**
   constructHmacText: the method in upper case, the base string URI and the parameter string,
   the last two encoded.
   */
  function HmacText(httpMethod: Octets, baseUri: Octets, parameters: Octets): Octets {
    Join([httpMethod, Encode(baseUri), Encode(parameters)], AMPERSAND)
  }

  // ---- sorting ----

  ghost predicate Sorted(less: (Octets, Octets) -> bool, ps: seq<Pair>) {
    forall i, j :: 0 <= i < j < |ps| ==> !PairLess(less, ps[j], ps[i])
  }

  lemma PairOrder(less: (Octets, Octets) -> bool, p: Pair, q: Pair, r: Pair)
    requires StrictTotalOrder(less)
    ensures !PairLess(less, p, p)
    ensures PairLess(less, p, q) || PairLess(less, q, p) || p == q
    ensures PairLess(less, p, q) && PairLess(less, q, r) ==> PairLess(less, p, r)
  {}

  lemma {:induction false} InsertAddsOne(less: (Octets, Octets) -> bool, p: Pair, ps: seq<Pair>)
    ensures multiset(Insert(less, p, ps)) == multiset{p} + multiset(ps)
    ensures forall q :: q in Insert(less, p, ps) <==> q == p || q in ps
  {
    if ps != [] && PairLess(less, ps[0], p) {
      InsertAddsOne(less, p, ps[1..]);
      assert ps == [ps[0]] + ps[1..];
    }
  }

  lemma FirstBelowRest(less: (Octets, Octets) -> bool, first: Pair, rest: seq<Pair>)
    requires Sorted(less, rest) && forall q :: q in rest ==> !PairLess(less, q, first)
    ensures Sorted(less, [first] + rest)
  {}

  lemma {:induction false} InsertKeepsSorted(less: (Octets, Octets) -> bool, p: Pair, ps: seq<Pair>)
    requires StrictTotalOrder(less) && Sorted(less, ps)
    ensures Sorted(less, Insert(less, p, ps))
    ensures multiset(Insert(less, p, ps)) == multiset{p} + multiset(ps)
  {
    InsertAddsOne(less, p, ps);
    if ps == [] || !PairLess(less, ps[0], p) {
      forall q | q in ps ensures !PairLess(less, q, p) {
        PairOrder(less, q, p, ps[0]);
        PairOrder(less, p, ps[0], q);
      }
      FirstBelowRest(less, p, ps);
    } else {
      InsertKeepsSorted(less, p, ps[1..]);
      InsertAddsOne(less, p, ps[1..]);
      forall q | q in Insert(less, p, ps[1..]) ensures !PairLess(less, q, ps[0]) {
        PairOrder(less, ps[0], p, p);
        PairOrder(less, p, ps[0], p);
      }
      FirstBelowRest(less, ps[0], Insert(less, p, ps[1..]));
    }
  }

  lemma {:induction false} SortSorts(less: (Octets, Octets) -> bool, ps: seq<Pair>)
    requires StrictTotalOrder(less)
    ensures Sorted(less, Sort(less, ps)) && multiset(Sort(less, ps)) == multiset(ps)
  {
    if ps != [] {
      SortSorts(less, ps[1..]);
      InsertKeepsSorted(less, ps[0], Sort(less, ps[1..]));
      assert ps == [ps[0]] + ps[1..];
    }
  }

  lemma SmallestFirst(less: (Octets, Octets) -> bool, a: seq<Pair>, p: Pair)
    requires StrictTotalOrder(less) && Sorted(less, a) && p in a
    ensures !PairLess(less, p, a[0])
  {
    PairOrder(less, p, p, p);
  }

  lemma SameFirst(less: (Octets, Octets) -> bool, a: seq<Pair>, b: seq<Pair>)
    requires StrictTotalOrder(less) && Sorted(less, a) && Sorted(less, b)
    requires multiset(a) == multiset(b) && a != [] && b != []
    ensures a[0] == b[0]
  {
    assert a[0] in multiset(b) && b[0] in multiset(a);
    SmallestFirst(less, a, b[0]);
    SmallestFirst(less, b, a[0]);
    PairOrder(less, a[0], b[0], a[0]);
  }

  lemma RestOf(a: seq<Pair>)
    requires a != []
    ensures multiset(a[1..]) == multiset(a) - multiset{a[0]}
  {
    assert a == [a[0]] + a[1..];
  }

  /** Two sorted lists with the same elements are the same list. */
  lemma {:induction false} SortIsUnique(less: (Octets, Octets) -> bool, a: seq<Pair>, b: seq<Pair>)
    requires StrictTotalOrder(less) && Sorted(less, a) && Sorted(less, b)
    requires multiset(a) == multiset(b)
    ensures a == b
  {
    assert |a| == |multiset(a)| == |multiset(b)| == |b|;
    if a != [] {
      SameFirst(less, a, b);
      RestOf(a);
      RestOf(b);
      SortIsUnique(less, a[1..], b[1..]);
      assert a == [a[0]] + a[1..] && b == [b[0]] + b[1..];
    }
  }

  // ---- nothing is lost ----

  lemma EncodePairIsInjective()
    ensures Injective(EncodePair)
  {
    forall p, q | EncodePair(p) == EncodePair(q) ensures p == q {
      DecodeOfEncode(p.0);
      DecodeOfEncode(q.0);
      DecodeOfEncode(p.1);
      DecodeOfEncode(q.1);
    }
  }

  /** A pair whose texts hold neither separator, as encoded ones do. */
  predicate IsPlain(p: Pair) {
    EQUALS !in p.0 && EQUALS !in p.1 && AMPERSAND !in p.0 && AMPERSAND !in p.1
  }

  lemma JoinPairIsInjective(p: Pair, q: Pair)
    requires IsPlain(p) && IsPlain(q) && JoinPair(p) == JoinPair(q)
    ensures p == q
  {
    SplitOfJoin([p.0, p.1], EQUALS);
    SplitOfJoin([q.0, q.1], EQUALS);
    assert [p.0, p.1][0] == p.0 && [p.0, p.1][1] == p.1;
    assert [q.0, q.1][0] == q.0 && [q.0, q.1][1] == q.1;
  }

  lemma JoinPairText(p: Pair)
    requires IsPlain(p)
    ensures AMPERSAND !in JoinPair(p) && JoinPair(p) != []
  {
    assert JoinPair(p) == p.0 + [EQUALS] + Join([p.1], EQUALS);
  }

  lemma {:induction false} JoinPairsIsInjective(a: seq<Pair>, b: seq<Pair>)
    requires forall p :: p in a ==> IsPlain(p)
    requires forall p :: p in b ==> IsPlain(p)
    requires JoinPairs(a) == JoinPairs(b)
    ensures a == b
  {
    if a != [] && b != [] {
      assert JoinPairs(a)[0] == JoinPair(a[0]) && JoinPairs(b)[0] == JoinPair(b[0]);
      JoinPairIsInjective(a[0], b[0]);
      assert JoinPairs(a)[1..] == JoinPairs(a[1..]) && JoinPairs(b)[1..] == JoinPairs(b[1..]);
      JoinPairsIsInjective(a[1..], b[1..]);
    }
  }

  lemma {:induction false} JoinPairsAreTokens(ps: seq<Pair>)
    requires forall p :: p in ps ==> IsPlain(p)
    ensures NoneContains(JoinPairs(ps), AMPERSAND) && |JoinPairs(ps)| == |ps|
    ensures forall i :: 0 <= i < |ps| ==> JoinPairs(ps)[i] != []
  {
    if ps != [] {
      JoinPairText(ps[0]);
      JoinPairsAreTokens(ps[1..]);
    }
  }

  lemma JoinedTextIsInjective(a: seq<Pair>, b: seq<Pair>)
    requires forall p :: p in a ==> IsPlain(p)
    requires forall p :: p in b ==> IsPlain(p)
    requires Join(JoinPairs(a), AMPERSAND) == Join(JoinPairs(b), AMPERSAND)
    ensures a == b
  {
    JoinPairsAreTokens(a);
    JoinPairsAreTokens(b);
    if a != [] {
      SplitOfJoin(JoinPairs(a), AMPERSAND);
    }
    if b != [] {
      SplitOfJoin(JoinPairs(b), AMPERSAND);
    }
    assert Split([], AMPERSAND) == [[]];
    JoinPairsIsInjective(a, b);
  }

  lemma SortedEncodingIsPlain(less: (Octets, Octets) -> bool, ps: seq<Pair>)
    requires StrictTotalOrder(less)
    ensures forall q :: q in Sort(less, EncodePairs(ps)) ==> IsPlain(q)
  {
    SortSorts(less, EncodePairs(ps));
    forall q | q in Sort(less, EncodePairs(ps)) ensures IsPlain(q) {
      assert q in multiset(Sort(less, EncodePairs(ps)));
      var p := MapHasSource(EncodePair, ps, q);
      EncodeAlphabet(p.0);
      EncodeAlphabet(p.1);
    }
  }

  /** Two lists of parameters give the same string exactly when they differ in order only. */
  lemma SameStringIffSameParameters(less: (Octets, Octets) -> bool, a: seq<Pair>, b: seq<Pair>)
    requires StrictTotalOrder(less)
    ensures Normalised(less, a) == Normalised(less, b) <==> multiset(a) == multiset(b)
  {
    var ea, eb := EncodePairs(a), EncodePairs(b);
    SortSorts(less, ea);
    SortSorts(less, eb);
    EncodePairIsInjective();
    MapKeepsMultisets(EncodePair, a, b);
    if Normalised(less, a) == Normalised(less, b) {
      SortedEncodingIsPlain(less, a);
      SortedEncodingIsPlain(less, b);
      JoinedTextIsInjective(Sort(less, ea), Sort(less, eb));
    }
    if multiset(a) == multiset(b) {
      SortIsUnique(less, Sort(less, ea), Sort(less, eb));
    }
  }

  // ---- what the text says ----

  /** Each parameter after those with a smaller key, or with the same key and a smaller value, as encoded. */
  ghost predicate ByKeyThenValue(less: (Octets, Octets) -> bool, ps: seq<Pair>) {
    forall i, j :: 0 <= i < j < |ps| ==>
      && !less(Encode(ps[j].0), Encode(ps[i].0))
      && (ps[i].0 == ps[j].0 ==> !less(Encode(ps[j].1), Encode(ps[i].1)))
  }

  lemma {:induction false} EncodePairsAt(ps: seq<Pair>, i: nat)
    ensures |EncodePairs(ps)| == |ps| && (i < |ps| ==> EncodePairs(ps)[i] == (Encode(ps[i].0), Encode(ps[i].1)))
  {
    if ps != [] {
      EncodePairsAt(ps[..|ps| - 1], if i < |ps| - 1 then i else 0);
    }
  }

  lemma {:induction false} JoinPairsAt(ps: seq<Pair>, i: nat)
    ensures |JoinPairs(ps)| == |ps| && (i < |ps| ==> JoinPairs(ps)[i] == ps[i].0 + ['='] + ps[i].1)
  {
    if ps != [] {
      assert Join([ps[0].1], EQUALS) == ps[0].1;
      JoinPairsAt(ps[1..], if i > 0 then i - 1 else 0);
    }
  }

  /** The parameters in the order in which the text has them. */
  lemma {:induction false} Originals(encoded: seq<Pair>, ps: seq<Pair>) returns (qs: seq<Pair>)
    requires forall e :: e in encoded ==> e in EncodePairs(ps)
    ensures EncodePairs(qs) == encoded
  {
    if encoded == [] {
      qs := [];
    } else {
      var last := encoded[|encoded| - 1];
      var init := Originals(encoded[..|encoded| - 1], ps);
      assert last in encoded;
      var p := MapHasSource(EncodePair, ps, last);
      qs := init + [p];
      assert qs[..|qs| - 1] == init;
      SplitLast(encoded);
    }
  }

  lemma SortedOriginals(less: (Octets, Octets) -> bool, qs: seq<Pair>)
    requires StrictTotalOrder(less) && Sorted(less, EncodePairs(qs))
    ensures ByKeyThenValue(less, qs)
  {
    forall i, j | 0 <= i < j < |qs|
      ensures !less(Encode(qs[j].0), Encode(qs[i].0))
      ensures qs[i].0 == qs[j].0 ==> !less(Encode(qs[j].1), Encode(qs[i].1))
    {
      EncodePairsAt(qs, i);
      EncodePairsAt(qs, j);
      assert !PairLess(less, EncodePairs(qs)[j], EncodePairs(qs)[i]);
    }
  }

  lemma TextOfEncoded(qs: seq<Pair>)
    ensures Join(JoinPairs(EncodePairs(qs)), AMPERSAND) == FormText.Text(qs)
  {
    JoinPairsAt(EncodePairs(qs), 0);
    EncodePairsAt(qs, 0);
    forall i | 0 <= i < |qs| ensures JoinPairs(EncodePairs(qs))[i] == FormText.Assignment(qs[i]) {
      EncodePairsAt(qs, i);
      JoinPairsAt(EncodePairs(qs), i);
    }
    FormText.JoinedAssignments(JoinPairs(EncodePairs(qs)), qs);
  }

  /**
   The normalised string is "key=value" for every parameter, joined by "&", ordered by key and under
   equal keys by value (section 3.4.1.3.2 of RFC 5849).
   */
  lemma NormalisedText(less: (Octets, Octets) -> bool, ps: seq<Pair>) returns (qs: seq<Pair>)
    requires StrictTotalOrder(less)
    ensures multiset(qs) == multiset(ps) && ByKeyThenValue(less, qs)
    ensures Normalised(less, ps) == FormText.Text(qs)
  {
    var sorted := Sort(less, EncodePairs(ps));
    SortSorts(less, EncodePairs(ps));
    forall e | e in sorted ensures e in EncodePairs(ps) {
      assert e in multiset(sorted);
    }
    qs := Originals(sorted, ps);
    EncodePairIsInjective();
    MapKeepsMultisets(EncodePair, qs, ps);
    SortedOriginals(less, qs);
    TextOfEncoded(qs);
  }

  /** Cut at each "&" and read as a query string is, it gives the parameters back in that order. */
  lemma NormalisedIsReadBack(less: (Octets, Octets) -> bool, ps: seq<Pair>) returns (qs: seq<Pair>)
    requires StrictTotalOrder(less) && ps != []
    ensures multiset(qs) == multiset(ps) && ByKeyThenValue(less, qs)
    ensures var tokens := Split<Octet>(Normalised(less, ps), '&');
            |tokens| == |qs| && forall i :: 0 <= i < |qs| ==> QueryString.DecodeToken(tokens[i]) == Some(qs[i])
  {
    qs := NormalisedText(less, ps);
    assert |multiset(qs)| == |multiset(ps)|;
    QueryStringProof.TextIsReadBack(qs);
  }

  /** A body counts only if it is a form. */
  lemma ParametersOfRequest(request: Request)
    ensures multiset(request.All()) ==
            multiset(request.query) + multiset(request.oauth) +
            if request.isForm then multiset(request.form) else multiset{}
  {}

  /** The three fields, read off the text from its end; the method may hold any octet. */
  function Fields(text: Octets): Option<(Octets, Octets, Octets)> {
    var parts := Split(text, AMPERSAND);
    var n := |parts|;
    if n < 3 then None
    else
      match (Decode(parts[n - 2]), Decode(parts[n - 1]))
      case (Some(baseUri), Some(parameters)) => Some((Join(parts[..n - 2], AMPERSAND), baseUri, parameters))
      case _ => None
  }

  /** Method, base URI and parameters, in this order. */
  lemma HmacTextMeaning(httpMethod: Octets, baseUri: Octets, parameters: Octets)
    ensures HmacText(httpMethod, baseUri, parameters) ==
            httpMethod + ['&'] + (Encode(baseUri) + ['&'] + Encode(parameters))
  {
    var u, p := Encode(baseUri), Encode(parameters);
    assert [httpMethod, u, p][1..] == [u, p] && [u, p][1..] == [p];
    assert Join([u, p], AMPERSAND) == u + [AMPERSAND] + p;
    assert Join([httpMethod, u, p], AMPERSAND) == httpMethod + [AMPERSAND] + (u + [AMPERSAND] + p);
  }

  /** constructHmacText loses nothing: its three fields come back out of its result. */
  lemma FieldsOfHmacText(httpMethod: Octets, baseUri: Octets, parameters: Octets)
    ensures Fields(HmacText(httpMethod, baseUri, parameters)) == Some((httpMethod, baseUri, parameters))
  {
    var u, p := Encode(baseUri), Encode(parameters);
    EncodeAlphabet(baseUri);
    EncodeAlphabet(parameters);
    DecodeOfEncode(baseUri);
    DecodeOfEncode(parameters);
    var tail := u + [AMPERSAND] + p;
    HmacTextMeaning(httpMethod, baseUri, parameters);
    SplitOfConcat(httpMethod, AMPERSAND, tail);
    SplitOfConcat(u, AMPERSAND, p);
    SplitOfSeparatorFree(u, AMPERSAND);
    SplitOfSeparatorFree(p, AMPERSAND);
    JoinOfSplit(httpMethod, AMPERSAND);
    var parts := Split(httpMethod, AMPERSAND) + ([u] + [p]);
    assert parts[..|parts| - 2] == Split(httpMethod, AMPERSAND);
  }

  /** What is signed is the same text only for the same method, URI and parameters. */
  lemma SameTextIffSameRequest(less: (Octets, Octets) -> bool,
      m1: Octets, u1: Octets, r1: Request, m2: Octets, u2: Octets, r2: Request)
    requires StrictTotalOrder(less)
    ensures HmacText(m1, u1, Normalised(less, r1.All())) == HmacText(m2, u2, Normalised(less, r2.All())) <==>
            m1 == m2 && u1 == u2 && multiset(r1.All()) == multiset(r2.All())
  {
    FieldsOfHmacText(m1, u1, Normalised(less, r1.All()));
    FieldsOfHmacText(m2, u2, Normalised(less, r2.All()));
    SameStringIffSameParameters(less, r1.All(), r2.All());
  }
}
