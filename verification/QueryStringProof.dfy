/** When decoding an encoded object gives the object back. */
module QueryStringProof {
  import opened Wrappers
  import opened Sequences
  import opened Percent
  import opened QueryString
  import FormText

  lemma {:induction false} PlusFreeIsKept(s: Octets)
    requires '+' !in s
    ensures ReplacePlus(s) == s
  {
    if s != [] {
      PlusFreeIsKept(s[1..]);
    }
  }

  lemma {:induction false} EqualsAfter(s: Octets, rest: Octets)
    requires EQUALS !in s
    ensures IndexOfEquals(s + [EQUALS] + rest) == |s|
  {
    var whole := s + [EQUALS] + rest;
    if s == [] {
      assert whole == [EQUALS] + rest;
    } else {
      assert whole[1..] == s[1..] + [EQUALS] + rest;
      EqualsAfter(s[1..], rest);
    }
  }

  lemma TokenIsDecoded(p: Pair)
    ensures DecodeToken(Token(p)) == Some(p) && AMPERSAND !in Token(p) && EQUALS in Token(p)
  {
    var token := Token(p);
    EncodeAlphabet(p.0);
    EncodeAlphabet(p.1);
    PlusFreeIsKept(token);
    EqualsAfter(Encode(p.0), Encode(p.1));
    var k := |Encode(p.0)|;
    assert token[..k] == Encode(p.0) && token[k + 1..] == Encode(p.1) && token[k] == EQUALS;
    DecodeOfEncode(p.0);
    DecodeOfEncode(p.1);
  }

  // ---- what is written and what is read ----

  /** uriEncode writes "key=value" for each parameter, joined by "&". */
  lemma EncodedText(ps: seq<Pair>)
    ensures Join(Tokens(ps), AMPERSAND) == FormText.Text(ps)
  {
    TokensAt(ps, 0);
    forall i | 0 <= i < |ps| ensures Tokens(ps)[i] == FormText.Assignment(ps[i]) {
      TokensAt(ps, i);
    }
    FormText.JoinedAssignments(Tokens(ps), ps);
  }

  /** Cut at each "&", the text is read back parameter by parameter. */
  lemma TextIsReadBack(ps: seq<Pair>)
    requires ps != []
    ensures var tokens := Split<Octet>(FormText.Text(ps), '&');
            |tokens| == |ps| && forall i :: 0 <= i < |ps| ==> DecodeToken(tokens[i]) == Some(ps[i])
  {
    EncodedText(ps);
    TokensAt(ps, 0);
    forall i | 0 <= i < |ps| ensures AMPERSAND !in Tokens(ps)[i] && DecodeToken(Tokens(ps)[i]) == Some(ps[i]) {
      TokensAt(ps, i);
      TokenIsDecoded(ps[i]);
    }
    SplitOfJoin(Tokens(ps), AMPERSAND);
  }

  /** A property stands for its strings in order, null for none; properties follow one another. */
  lemma PairsMeaning(obj: Object, key: Octets, value: Value)
    ensures |Items(value)| == (match value case Null => 0 case Text(_) => 1 case List(items) => |items|)
    ensures Pairs(obj + [(key, value)]) == Pairs(obj) + PairsOf(key, Items(value))
    ensures |PairsOf(key, Items(value))| == |Items(value)|
    ensures forall i :: 0 <= i < |Items(value)| ==> PairsOf(key, Items(value))[i] == (key, Items(value)[i])
  {
    assert (obj + [(key, value)])[..|obj|] == obj;
    PairsOfItems(key, Items(value));
  }

  lemma {:induction false} PairsOfItems(key: Octets, items: seq<Octets>)
    ensures |PairsOf(key, items)| == |items|
    ensures forall i :: 0 <= i < |items| ==> PairsOf(key, items)[i] == (key, items[i])
  {
    if items != [] {
      PairsOfItems(key, items[..|items| - 1]);
    }
  }

  /** The encoding of forms, which writes a space as a plus sign. */
  function Plussed(s: Octets): Octets {
    if s == [] then []
    else (if s[0] == ' ' then ['+'] else Encode([s[0]])) + Plussed(s[1..])
  }

  lemma {:induction false} ReplacePlusConcat(a: Octets, b: Octets)
    ensures ReplacePlus(a + b) == ReplacePlus(a) + ReplacePlus(b)
  {
    if a == [] {
      EmptyLeft(b);
    } else {
      assert (a + b)[1..] == a[1..] + b;
      ReplacePlusConcat(a[1..], b);
    }
  }

  lemma EncodeOne(c: Octet)
    ensures Encode([c]) == if IsUnreserved(c) then [c] else Triplet(c)
  {
    EncodeIsPercentEncode([c]);
    assert PercentEncode([c][1..]) == [];
    EmptyLeft(if IsUnreserved(c) then [c] else Triplet(c));
  }

  lemma EncodeStep(s: Octets)
    requires s != []
    ensures Encode(s) == Encode([s[0]]) + Encode(s[1..])
  {
    EncodeIsPercentEncode(s);
    EncodeOne(s[0]);
    EncodeIsPercentEncode(s[1..]);
  }

  lemma PlussedOne(c: Octet)
    ensures ReplacePlus(if c == ' ' then ['+'] else Encode([c])) == Encode([c])
  {
    if c == ' ' {
      EncodeOne(' ');
      assert ReplacePlus(['+'][1..]) == [];
    } else {
      EncodeAlphabet([c]);
      PlusFreeIsKept(Encode([c]));
    }
  }

  lemma {:induction false} PlussedIsEncoded(s: Octets)
    ensures ReplacePlus(Plussed(s)) == Encode(s)
  {
    if s == [] {
      EncodeIsPercentEncode([]);
    } else {
      EncodeStep(s);
      PlussedOne(s[0]);
      PlussedIsEncoded(s[1..]);
      ReplacePlusConcat(if s[0] == ' ' then ['+'] else Encode([s[0]]), Plussed(s[1..]));
    }
  }

  /** A plus sign is read as a space, the key stands before the first "=" and the value after it. */
  lemma PlusIsSpace(p: Pair)
    ensures DecodeToken(Plussed(p.0) + ['='] + Plussed(p.1)) == Some(p)
  {
    PlussedToken(p);
    TokenIsSplit(p);
  }

  lemma PlussedToken(p: Pair)
    ensures ReplacePlus(Plussed(p.0) + ['='] + Plussed(p.1)) == Token(p)
  {
    ReplacePlusConcat(Plussed(p.0) + ['='], Plussed(p.1));
    ReplacePlusConcat(Plussed(p.0), ['=']);
    PlusFreeIsKept(['=']);
    PlussedIsEncoded(p.0);
    PlussedIsEncoded(p.1);
  }

  lemma TokenIsSplit(p: Pair)
    ensures var k := IndexOfEquals(Token(p));
            && k < |Token(p)| && Decode(Token(p)[..k]) == Some(p.0) && Decode(Token(p)[k + 1..]) == Some(p.1)
  {
    var token := Token(p);
    EncodeAlphabet(p.0);
    EqualsAfter(Encode(p.0), Encode(p.1));
    assert token[..|Encode(p.0)|] == Encode(p.0) && token[|Encode(p.0)| + 1..] == Encode(p.1);
    DecodeOfEncode(p.0);
    DecodeOfEncode(p.1);
  }

  /** Without "=" the whole token is the key, and its value is empty. */
  lemma TokenWithoutEquals(key: Octets)
    ensures DecodeToken(Plussed(key)) == Some((key, []))
  {
    PlussedIsEncoded(key);
    EncodeAlphabet(key);
    DecodeOfEncode(key);
    var k := IndexOfEquals(Encode(key));
    assert k == |Encode(key)| && Encode(key)[..k] == Encode(key);
  }

  // ---- decoding what was encoded ----

  function CollectAll(ps: seq<Pair>): Dictionary {
    if ps == [] then map[]
    else Collect(CollectAll(ps[..|ps| - 1]), ps[|ps| - 1].0, ps[|ps| - 1].1)
  }

  lemma {:induction false} TokensAreDecoded(ps: seq<Pair>)
    ensures DecodeTokens(Tokens(ps)) == Some(CollectAll(ps))
  {
    if ps != [] {
      TokensAreDecoded(ps[..|ps| - 1]);
      TokenIsDecoded(ps[|ps| - 1]);
      assert Tokens(ps)[..|Tokens(ps)| - 1] == Tokens(ps[..|ps| - 1]);
    }
  }

  function FirstPairs(ps: seq<Pair>): seq<Pair> {
    if |ps| > MAX_KEYS then ps[..MAX_KEYS] else ps
  }

  lemma TokensOfPrefix(ps: seq<Pair>, n: nat)
    requires n <= |ps|
    ensures |Tokens(ps)| == |ps| && Tokens(ps)[..n] == Tokens(ps[..n])
  {
    TokensAt(ps, 0);
    TokensAt(ps[..n], 0);
    forall i | 0 <= i < n ensures Tokens(ps)[i] == Tokens(ps[..n])[i] {
      TokensAt(ps, i);
      TokensAt(ps[..n], i);
    }
  }

  /** What uriDecode makes of the string for some parameters: it reads the first thousand. */
  lemma DecodeOfPairs(ps: seq<Pair>)
    requires ps != []
    ensures DecodeTokens(FirstKeys(Split(Join(Tokens(ps), AMPERSAND), AMPERSAND))) == Some(CollectAll(FirstPairs(ps)))
  {
    var tokens := Tokens(ps);
    TokensAt(ps, 0);
    forall i | 0 <= i < |tokens| ensures AMPERSAND !in tokens[i] {
      TokensAt(ps, i);
      TokenIsDecoded(ps[i]);
    }
    SplitOfJoin(tokens, AMPERSAND);
    TokensOfPrefix(ps, |FirstPairs(ps)|);
    TokensAreDecoded(FirstPairs(ps));
  }

  /** The values under a key, in order. */
  function ValuesOf(ps: seq<Pair>, key: Octets): seq<Octets> {
    if ps == [] then []
    else
      var rest := ValuesOf(ps[..|ps| - 1], key);
      if ps[|ps| - 1].0 == key then rest + [ps[|ps| - 1].1] else rest
  }

  /** One value is a string, more are an array. */
  function Pack(values: seq<Octets>): Decoded {
    if |values| == 1 then One(values[0]) else Many(values)
  }

  ghost predicate Holds(m: Dictionary, ps: seq<Pair>) {
    forall k :: (k in m <==> ValuesOf(ps, k) != []) && (k in m ==> m[k] == Pack(ValuesOf(ps, k)))
  }

  ghost predicate HoldsButProto(m: Dictionary, ps: seq<Pair>) {
    PROTO !in m &&
    forall k :: k != PROTO ==>
      (k in m <==> ValuesOf(ps, k) != []) && (k in m ==> m[k] == Pack(ValuesOf(ps, k)))
  }

  lemma {:induction false} CollectAllHolds(ps: seq<Pair>)
    ensures HoldsButProto(CollectAll(ps), ps)
  {
    if ps != [] {
      CollectAllHolds(ps[..|ps| - 1]);
    }
  }

  /** The object as it should come back: no nulls, no empty arrays, no arrays of one. */
  function Normal(obj: Object): Dictionary {
    if obj == [] then map[]
    else
      var (key, value) := obj[|obj| - 1];
      var m := Normal(obj[..|obj| - 1]);
      if Items(value) == [] then m else m[key := Pack(Items(value))]
  }

  ghost predicate DistinctKeys(obj: Object) {
    forall i, j :: 0 <= i < j < |obj| ==> obj[i].0 != obj[j].0
  }

  lemma {:induction false} ValuesOfConcat(a: seq<Pair>, b: seq<Pair>, key: Octets)
    ensures ValuesOf(a + b, key) == ValuesOf(a, key) + ValuesOf(b, key)
  {
    if b == [] {
      assert a + b == a;
    } else {
      assert (a + b)[..|a + b| - 1] == a + b[..|b| - 1];
      ValuesOfConcat(a, b[..|b| - 1], key);
    }
  }

  lemma {:induction false} ValuesOfProperty(key: Octets, items: seq<Octets>, k: Octets)
    ensures ValuesOf(PairsOf(key, items), k) == if k == key then items else []
  {
    if items != [] {
      var init := items[..|items| - 1];
      ValuesOfProperty(key, init, k);
      assert PairsOf(key, items)[..|PairsOf(key, items)| - 1] == PairsOf(key, init);
      assert init + [items[|items| - 1]] == items;
    }
  }

  lemma {:induction false} OtherKeysHaveNoValues(obj: Object, key: Octets)
    requires forall i :: 0 <= i < |obj| ==> obj[i].0 != key
    ensures ValuesOf(Pairs(obj), key) == []
  {
    if obj != [] {
      var init, last := obj[..|obj| - 1], obj[|obj| - 1];
      OtherKeysHaveNoValues(init, key);
      ValuesOfConcat(Pairs(init), PairsOf(last.0, Items(last.1)), key);
      ValuesOfProperty(last.0, Items(last.1), key);
    }
  }

  /** A key has the values of its own property, whether that is the last one or an earlier one. */
  lemma ValuesOfLast(obj: Object, k: Octets)
    requires DistinctKeys(obj) && obj != []
    ensures var init, last := obj[..|obj| - 1], obj[|obj| - 1];
            && (k == last.0 ==> ValuesOf(Pairs(init), k) == [])
            && ValuesOf(Pairs(obj), k) == if k == last.0 then Items(last.1) else ValuesOf(Pairs(init), k)
  {
    var init, last := obj[..|obj| - 1], obj[|obj| - 1];
    ValuesOfConcat(Pairs(init), PairsOf(last.0, Items(last.1)), k);
    ValuesOfProperty(last.0, Items(last.1), k);
    if k == last.0 {
      OtherKeysHaveNoValues(init, k);
    }
  }

  lemma {:induction false} NormalHolds(obj: Object)
    requires DistinctKeys(obj)
    ensures Holds(Normal(obj), Pairs(obj))
  {
    if obj != [] {
      var init, last := obj[..|obj| - 1], obj[|obj| - 1];
      NormalHolds(init);
      forall k ensures
        var m, values := Normal(obj), ValuesOf(Pairs(obj), k);
        (k in m <==> values != []) && (k in m ==> m[k] == Pack(values))
      {
        ValuesOfLast(obj, k);
        assert k in Normal(init) <==> ValuesOf(Pairs(init), k) != [];
      }
    }
  }

  /** Under a thousand parameters or fewer, only __proto__ can be missing. */
  lemma CollectedIsNormal(obj: Object)
    requires DistinctKeys(obj)
    ensures CollectAll(Pairs(obj)) == Normal(obj) <==> ValuesOf(Pairs(obj), PROTO) == []
  {
    CollectAllHolds(Pairs(obj));
    NormalHolds(obj);
    var m, n := CollectAll(Pairs(obj)), Normal(obj);
    if ValuesOf(Pairs(obj), PROTO) == [] {
      assert m.Keys == n.Keys by {
        forall k ensures k in m <==> k in n {}
      }
    } else {
      assert PROTO in n && PROTO !in m;
    }
  }

  /** With more, the parameter after the first thousand is missing from its key. */
  lemma TooManyAreCut(ps: seq<Pair>)
    requires |ps| > MAX_KEYS
    ensures exists k :: |ValuesOf(FirstPairs(ps), k)| < |ValuesOf(ps, k)|
  {
    var first, cut, rest := ps[..MAX_KEYS], ps[MAX_KEYS], ps[MAX_KEYS + 1..];
    var k := cut.0;
    assert ps == first + ([cut] + rest);
    ValuesOfConcat(first, [cut] + rest, k);
    ValuesOfConcat([cut], rest, k);
    assert ValuesOf([cut], k) == [cut.1] by {
      assert [cut][..0] == [];
    }
    assert |ValuesOf(FirstPairs(ps), k)| < |ValuesOf(ps, k)|;
  }

  lemma CutIsNotNormal(obj: Object)
    requires DistinctKeys(obj) && |Pairs(obj)| > MAX_KEYS
    ensures CollectAll(FirstPairs(Pairs(obj))) != Normal(obj)
  {
    var ps := Pairs(obj);
    CollectAllHolds(FirstPairs(ps));
    NormalHolds(obj);
    TooManyAreCut(ps);
    var k :| |ValuesOf(FirstPairs(ps), k)| < |ValuesOf(ps, k)|;
    if k == PROTO {
      assert PROTO in Normal(obj);
    } else {
      assert k in Normal(obj) && Normal(obj)[k] == Pack(ValuesOf(ps, k));
    }
  }

  /**
   uriDecode(uriEncode(obj)) is obj without nulls, empty arrays and arrays of one if and only if
   obj stands for 1 to 1000 parameters, none of them called __proto__.
   */
  lemma RoundTrip(obj: Object)
    requires DistinctKeys(obj)
    ensures DecodeTokens(FirstKeys(Split(Join(Tokens(Pairs(obj)), AMPERSAND), AMPERSAND))) == Some(Normal(obj)) <==>
            1 <= |Pairs(obj)| <= 1000 && ValuesOf(Pairs(obj), "__proto__") == []
  {
    var ps := Pairs(obj);
    if ps == [] {
      NormalHolds(obj);
      assert Split([], AMPERSAND) == [[]];
      EmptyStringIsOneParameter();
      assert [] !in Normal(obj) by {
        assert ValuesOf(ps, []) == [];
      }
    } else {
      DecodeOfPairs(ps);
      if |ps| <= MAX_KEYS {
        CollectedIsNormal(obj);
      } else {
        CutIsNotNormal(obj);
      }
    }
  }

  /** An empty query string is read as the empty key with the empty value. */
  lemma EmptyStringIsOneParameter()
    ensures DecodeTokens([[]]) == Some(map[[] := One([])])
  {
    var tokens: seq<Octets> := [[]];
    assert tokens[..0] == [];
    assert DecodeToken([]) == Some(([], []));
  }
}
