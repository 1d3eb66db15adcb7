/** Query strings: uriEncode and uriDecode of api-console.js with their default separators. */
module QueryString {
  import opened Wrappers
  import opened Sequences
  import opened Percent

  const MAX_KEYS := 1000

  /** A property value: null or undefined, a string, or an array of strings. */
  datatype Value = Null | Text(text: Octets) | List(items: seq<Octets>)

  /** The own properties of an object, in the order of Object.keys. */
  type Object = seq<(Octets, Value)>

  function Items(v: Value): seq<Octets> {
    match v
    case Null => []
    case Text(text) => [text]
    case List(items) => items
  }

  function PairsOf(key: Octets, items: seq<Octets>): seq<Pair> {
    if items == [] then [] else PairsOf(key, items[..|items| - 1]) + [(key, items[|items| - 1])]
  }

  /** The parameters an object stands for. */
  function Pairs(obj: Object): seq<Pair> {
    if obj == [] then []
    else
      var (key, value) := obj[|obj| - 1];
      Pairs(obj[..|obj| - 1]) + PairsOf(key, Items(value))
  }

  function Token(p: Pair): Octets {
    Encode(p.0) + [EQUALS] + Encode(p.1)
  }

  function Tokens(ps: seq<Pair>): seq<Octets> {
    if ps == [] then [] else Tokens(ps[..|ps| - 1]) + [Token(ps[|ps| - 1])]
  }

  lemma {:induction false} TokensAt(ps: seq<Pair>, i: nat)
    ensures |Tokens(ps)| == |ps| && (i < |ps| ==> Tokens(ps)[i] == Token(ps[i]))
  {
    if ps != [] {
      TokensAt(ps[..|ps| - 1], if i < |ps| - 1 then i else 0);
    }
  }

  lemma {:induction false} TokensConcat(a: seq<Pair>, b: seq<Pair>)
    ensures Tokens(a + b) == Tokens(a) + Tokens(b)
  {
    if b == [] {
      assert a + b == a;
    } else {
      assert (a + b)[..|a + b| - 1] == a + b[..|b| - 1];
      TokensConcat(a, b[..|b| - 1]);
    }
  }

  /** The token pushed for one further value of a key. */
  lemma TokensPush(key: Octets, items: seq<Octets>, i: nat)
    requires i < |items|
    ensures Tokens(PairsOf(key, items[..i + 1])) ==
            Tokens(PairsOf(key, items[..i])) + [Encode(key) + [EQUALS] + Encode(items[i])]
  {
    assert items[..i + 1][..i] == items[..i];
    var ps := PairsOf(key, items[..i + 1]);
    assert ps[..|ps| - 1] == PairsOf(key, items[..i]);
  }

  lemma TokensOfText(key: Octets, text: Octets)
    ensures Tokens(PairsOf(key, [text])) == [Encode(key) + [EQUALS] + Encode(text)]
  {
    TokensPush(key, [text], 0);
    assert [text][..1] == [text] && [text][..0] == [];
    assert PairsOf(key, []) == [] && Tokens([]) == [];
  }

  lemma TokensOfNothing(key: Octets, params: seq<Octets>)
    ensures params + Tokens(PairsOf(key, [])) == params
  {
    assert PairsOf(key, []) == [] && Tokens([]) == [];
  }

  /** An array pushes once per item. */
  method PushItems(params: seq<Octets>, key: Octets, items: seq<Octets>) returns (pushed: seq<Octets>)
    ensures pushed == params + Tokens(PairsOf(key, items))
  {
    var keyStr := Encode(key) + [EQUALS];
    pushed := params;
    TokensOfNothing(key, params);
    var i := 0;
    while i < |items|
      invariant 0 <= i <= |items|
      invariant pushed == params + Tokens(PairsOf(key, items[..i]))
    {
      TokensPush(key, items, i);
      pushed := pushed + [keyStr + Encode(items[i])];
      i := i + 1;
    }
    assert items[..i] == items;
  }

  /** The pushes for one property. */
  method PushProperty(params: seq<Octets>, key: Octets, value: Value) returns (pushed: seq<Octets>)
    ensures pushed == params + Tokens(PairsOf(key, Items(value)))
  {
    match value {
      case List(items) =>
        pushed := PushItems(params, key, items);
      case Text(text) =>
        TokensOfText(key, text);
        pushed := params + [Encode(key) + [EQUALS] + Encode(text)];
      case Null =>
        TokensOfNothing(key, params);
        pushed := params;
    }
  }

  /** uriEncode(obj) */
  method UriEncode(obj: Object) returns (qs: Octets)
    ensures qs == Join(Tokens(Pairs(obj)), AMPERSAND)
  {
    var params: seq<Octets> := [];
    var n := 0;
    while n < |obj|
      invariant 0 <= n <= |obj|
      invariant params == Tokens(Pairs(obj[..n]))
    {
      var (key, value) := obj[n];
      assert obj[..n + 1][..n] == obj[..n];
      TokensConcat(Pairs(obj[..n]), PairsOf(key, Items(value)));
      params := PushProperty(params, key, value);
      n := n + 1;
    }
    assert obj[..n] == obj;
    qs := Join(params, AMPERSAND);
  }

  /** What a key holds after decoding: a string, or an array from the second value on. */
  datatype Decoded = One(text: Octets) | Many(texts: seq<Octets>)

  type Dictionary = map<Octets, Decoded>

  /** Assigning a string to this property of an object is ignored, and it is never an own one. */
  const PROTO: Octets := ['_', '_', 'p', 'r', 'o', 't', 'o', '_', '_']

  /** The assignment at the end of uriDecode's loop: a new key, a second value, a further value. */
  function Collect(m: Dictionary, key: Octets, value: Octets): Dictionary {
    if key !in m then (if key == PROTO then m else m[key := One(value)])
    else
      match m[key]
      case One(first) => m[key := Many([first, value])]
      case Many(values) => m[key := Many(values + [value])]
  }

  /** The replacement of each plus sign by "%20". */
  function ReplacePlus(s: Octets): Octets {
    if s == [] then [] else (if s[0] == '+' then ['%', '2', '0'] else [s[0]]) + ReplacePlus(s[1..])
  }

  /** indexOf(eq), or the length when there is none. */
  function IndexOfEquals(s: Octets): (k: nat)
    ensures k <= |s| && EQUALS !in s[..k] && (k < |s| ==> s[k] == EQUALS)
  {
    if s == [] || s[0] == EQUALS then 0
    else
      var k := IndexOfEquals(s[1..]);
      assert s[..k + 1] == [s[0]] + s[1..][..k];
      k + 1
  }

  /** One turn of uriDecode's loop: the decoded key and value, None for a URIError. */
  function DecodeToken(token: Octets): Option<Pair> {
    var s := ReplacePlus(token);
    var k := IndexOfEquals(s);
    match Decode(s[..k])
    case None => None
    case Some(key) =>
      match Decode(if k < |s| then s[k + 1..] else [])
      case None => None
      case Some(value) => Some((key, value))
  }

  function DecodeTokens(tokens: seq<Octets>): Option<Dictionary> {
    if tokens == [] then Some(map[])
    else
      match DecodeTokens(tokens[..|tokens| - 1])
      case None => None
      case Some(m) =>
        match DecodeToken(tokens[|tokens| - 1])
        case None => None
        case Some((key, value)) => Some(Collect(m, key, value))
  }

  function FirstKeys(tokens: seq<Octets>): seq<Octets> {
    if |tokens| > MAX_KEYS then tokens[..MAX_KEYS] else tokens
  }

  lemma {:induction false} DecodeTokensPrefix(tokens: seq<Octets>, n: nat)
    requires n <= |tokens| && DecodeTokens(tokens[..n]).None?
    ensures DecodeTokens(tokens).None?
  {
    if n == |tokens| {
      assert tokens[..n] == tokens;
    } else {
      assert tokens[..|tokens| - 1][..n] == tokens[..n];
      DecodeTokensPrefix(tokens[..|tokens| - 1], n);
    }
  }

  lemma DecodeTokensStep(tokens: seq<Octets>, i: nat, m: Dictionary)
    requires i < |tokens| && DecodeTokens(tokens[..i]) == Some(m)
    ensures DecodeTokens(tokens[..i + 1]) ==
            match DecodeToken(tokens[i])
            case None => None
            case Some((key, value)) => Some(Collect(m, key, value))
  {
    assert tokens[..i + 1][..i] == tokens[..i];
  }

  /** uriDecode(qs); None when decodeURIComponent throws. */
  method UriDecode(qs: Octets) returns (result: Option<Dictionary>)
    ensures result == DecodeTokens(FirstKeys(Split(qs, AMPERSAND)))
  {
    var parts := Split(qs, AMPERSAND);
    var obj: Dictionary := map[];
    var len := if |parts| > MAX_KEYS then MAX_KEYS else |parts|;
    ghost var tokens := FirstKeys(parts);
    assert tokens == parts[..len];
    for i := 0 to len
      invariant DecodeTokens(tokens[..i]) == Some(obj)
    {
      DecodeTokensStep(tokens, i, obj);
      var pair := DecodeToken(parts[i]);
      if pair.None? {
        DecodeTokensPrefix(tokens, i + 1);
        return None;
      }
      obj := Collect(obj, pair.value.0, pair.value.1);
    }
    assert tokens[..len] == tokens;
    return Some(obj);
  }
}
