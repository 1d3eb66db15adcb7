/** Percent-encoding as api-console.js does it, on octets. */
module Percent {
  import opened Wrappers

  type Octets = seq<Octet>

  /** A key and a value. */
  type Pair = (Octets, Octets)

  const AMPERSAND: Octet := '&'
  const EQUALS: Octet := '='

  predicate IsAlphaNumeric(c: Octet) {
    'A' <= c <= 'Z' || 'a' <= c <= 'z' || '0' <= c <= '9'
  }

  /** Section 2.3 of RFC 3986. */
  predicate IsUnreserved(c: Octet) {
    IsAlphaNumeric(c) || c in ['-', '.', '_', '~']
  }

  function HexDigit(n: nat): Octet
    requires n < 16
  {
    if n < 10 then '0' + n as char else 'A' + (n - 10) as char
  }

  /** The value of a hexadecimal digit of either case. */
  function HexValue(c: Octet): (n: Option<nat>)
    ensures n.Some? ==> n.value < 16
  {
    if '0' <= c <= '9' then Some((c - '0') as nat)
    else if 'A' <= c <= 'F' then Some((c - 'A') as nat + 10)
    else if 'a' <= c <= 'f' then Some((c - 'a') as nat + 10)
    else None
  }

  function Triplet(c: Octet): Octets {
    ['%', HexDigit(c as nat / 16), HexDigit(c as nat % 16)]
  }

  /** encodeURIComponent leaves more characters alone than RFC 3986 allows. */
  function UriOctet(c: Octet): Octets {
    if IsUnreserved(c) || c in ['!', '*', '\'', '(', ')'] then [c] else Triplet(c)
  }

  function EncodeUriComponent(s: Octets): Octets {
    if s == [] then [] else UriOctet(s[0]) + EncodeUriComponent(s[1..])
  }

  /** The replacement of each ! ' ( ) by what escape makes of it. */
  function EscapeMarks(s: Octets): Octets {
    if s == [] then []
    else (if s[0] in ['!', '\'', '(', ')'] then Triplet(s[0]) else [s[0]]) + EscapeMarks(s[1..])
  }

  /** The replacement of each star by "%2A". */
  function EscapeStars(s: Octets): Octets {
    if s == [] then []
    else (if s[0] == '*' then ['%', '2', 'A'] else [s[0]]) + EscapeStars(s[1..])
  }

  /** encodeComponent, which is also rfc3986Encode. */
  function Encode(s: Octets): Octets {
    EscapeStars(EscapeMarks(EncodeUriComponent(s)))
  }

  /** decodeURIComponent; None stands for URIError. */
  function Decode(s: Octets): Option<Octets> {
    if s == [] then Some([])
    else if s[0] != '%' then
      match Decode(s[1..])
      case None => None
      case Some(t) => Some([s[0]] + t)
    else if |s| < 3 || HexValue(s[1]).None? || HexValue(s[2]).None? then None
    else
      match Decode(s[3..])
      case None => None
      case Some(t) => Some([(16 * HexValue(s[1]).value + HexValue(s[2]).value) as char] + t)
  }

  /** The encoding section 3.6 of RFC 5849 asks for: all but the unreserved octets as triplets. */
  function PercentEncode(s: Octets): Octets {
    if s == [] then []
    else (if IsUnreserved(s[0]) then [s[0]] else Triplet(s[0])) + PercentEncode(s[1..])
  }

  lemma {:induction false} EscapeMarksConcat(a: Octets, b: Octets)
    ensures EscapeMarks(a + b) == EscapeMarks(a) + EscapeMarks(b)
  {
    if a == [] {
      assert a + b == b;
    } else {
      assert (a + b)[1..] == a[1..] + b;
      EscapeMarksConcat(a[1..], b);
    }
  }

  lemma {:induction false} EscapeStarsConcat(a: Octets, b: Octets)
    ensures EscapeStars(a + b) == EscapeStars(a) + EscapeStars(b)
  {
    if a == [] {
      assert a + b == b;
    } else {
      assert (a + b)[1..] == a[1..] + b;
      EscapeStarsConcat(a[1..], b);
    }
  }

  lemma {:induction false} PlainIsKept(s: Octets)
    requires forall i :: 0 <= i < |s| ==> s[i] == '%' || IsUnreserved(s[i])
    ensures EscapeMarks(s) == s && EscapeStars(s) == s
  {
    if s != [] {
      PlainIsKept(s[1..]);
    }
  }

  lemma OctetIsPercentEncoded(c: Octet)
    ensures EscapeStars(EscapeMarks(UriOctet(c))) == if IsUnreserved(c) then [c] else Triplet(c)
  {
    PlainIsKept(Triplet(c));
    if IsUnreserved(c) {
      PlainIsKept([c]);
    } else if c == '*' {
      assert EscapeMarks(['*']) == ['*'] && EscapeStars(['*']) == ['%', '2', 'A'] == Triplet('*');
    } else if c in ['!', '\'', '(', ')'] {
      assert EscapeMarks([c]) == Triplet(c) + EscapeMarks([]) == Triplet(c);
    }
  }

  /** The three replacements together are the RFC's percent-encoding. */
  lemma {:induction false} EncodeIsPercentEncode(s: Octets)
    ensures Encode(s) == PercentEncode(s)
  {
    if s != [] {
      EscapeMarksConcat(UriOctet(s[0]), EncodeUriComponent(s[1..]));
      EscapeStarsConcat(EscapeMarks(UriOctet(s[0])), EscapeMarks(EncodeUriComponent(s[1..])));
      OctetIsPercentEncoded(s[0]);
      EncodeIsPercentEncode(s[1..]);
    }
  }

  lemma HexDigits(n: nat)
    requires n < 16
    ensures HexValue(HexDigit(n)) == Some(n)
    ensures IsUnreserved(HexDigit(n))
  {}

  lemma DecodePlain(c: Octet, rest: Octets, decoded: Octets)
    requires c != '%' && Decode(rest) == Some(decoded)
    ensures Decode([c] + rest) == Some([c] + decoded)
  {
    assert ([c] + rest)[1..] == rest;
  }

  lemma DecodeTriplet(c: Octet, rest: Octets, decoded: Octets)
    requires Decode(rest) == Some(decoded)
    ensures Decode(Triplet(c) + rest) == Some([c] + decoded)
  {
    HexDigits(c as nat / 16);
    HexDigits(c as nat % 16);
    assert (Triplet(c) + rest)[3..] == rest;
    assert 16 * (c as nat / 16) + c as nat % 16 == c as nat;
  }

  /** The unreserved characters by their codes: ALPHA and DIGIT of RFC 5234, and - . _ ~. */
  lemma UnreservedCodes(c: Octet)
    ensures var n := c as int;
            IsUnreserved(c) <==>
            || 0x41 <= n <= 0x5A || 0x61 <= n <= 0x7A || 0x30 <= n <= 0x39
            || n == 0x2D || n == 0x2E || n == 0x5F || n == 0x7E
  {}

  /** The code of the hexadecimal digit in upper case. */
  function HexCode(n: nat): nat {
    if n < 10 then 0x30 + n else 0x41 + n - 10
  }

  /** A triplet is written with upper-case digits, the high one first. */
  lemma TripletCodes(c: Octet)
    ensures |Triplet(c)| == 3 && Triplet(c)[0] as int == 0x25
    ensures Triplet(c)[1] as int == HexCode(c as nat / 16) && Triplet(c)[2] as int == HexCode(c as nat % 16)
  {}

  /** A digit is read in both cases, and nothing else is. */
  lemma HexValueIff(c: Octet, n: nat)
    requires n < 16
    ensures HexValue(c) == Some(n) <==> c as int == HexCode(n) || (n >= 10 && c as int == HexCode(n) + 0x20)
  {}

  /** A percent sign that two hexadecimal digits do not follow. */
  ghost predicate BreaksOff(s: Octets, i: nat) {
    i < |s| && s[i] == '%' && (i + 2 >= |s| || HexValue(s[i + 1]).None? || HexValue(s[i + 2]).None?)
  }

  lemma BreaksOffLater(s: Octets, n: nat)
    requires n <= |s| && forall i :: 0 <= i < n ==> !BreaksOff(s, i)
    ensures (exists i :: BreaksOff(s, i)) <==> (exists i :: BreaksOff(s[n..], i))
  {
    forall i: nat | BreaksOff(s, i) ensures exists j :: BreaksOff(s[n..], j) {
      assert BreaksOff(s[n..], i - n);
    }
    forall i: nat | BreaksOff(s[n..], i) ensures exists j :: BreaksOff(s, j) {
      assert BreaksOff(s, i + n);
    }
  }

  /** Decoding fails exactly on such a percent sign. */
  lemma {:induction false} DecodeFailsIff(s: Octets)
    ensures Decode(s).None? <==> exists i :: BreaksOff(s, i)
  {
    if s == [] {
    } else if s[0] != '%' {
      DecodeFailsIff(s[1..]);
      BreaksOffLater(s, 1);
    } else if |s| < 3 || HexValue(s[1]).None? || HexValue(s[2]).None? {
      assert BreaksOff(s, 0);
    } else {
      DecodeFailsIff(s[3..]);
      BreaksOffLater(s, 3);
    }
  }

  /** Decoding undoes encoding, for every octet sequence. */
  lemma {:induction false} DecodeOfPercentEncode(s: Octets)
    ensures Decode(PercentEncode(s)) == Some(s)
  {
    if s != [] {
      DecodeOfPercentEncode(s[1..]);
      assert [s[0]] + s[1..] == s;
      if IsUnreserved(s[0]) {
        DecodePlain(s[0], PercentEncode(s[1..]), s[1..]);
      } else {
        DecodeTriplet(s[0], PercentEncode(s[1..]), s[1..]);
      }
    }
  }

  lemma DecodeOfEncode(s: Octets)
    ensures Decode(Encode(s)) == Some(s)
  {
    EncodeIsPercentEncode(s);
    DecodeOfPercentEncode(s);
  }

  /** Encoded text holds no separator: nothing but unreserved octets and percent signs. */
  lemma {:induction false} PercentEncodeAlphabet(s: Octets)
    ensures forall c :: c in PercentEncode(s) ==> IsUnreserved(c) || c == '%'
  {
    if s != [] {
      PercentEncodeAlphabet(s[1..]);
      HexDigits(s[0] as nat / 16);
      HexDigits(s[0] as nat % 16);
    }
  }

  lemma EncodeAlphabet(s: Octets)
    ensures forall c :: c in Encode(s) ==> IsUnreserved(c) || c == '%'
    ensures '&' !in Encode(s) && '=' !in Encode(s) && '+' !in Encode(s)
  {
    EncodeIsPercentEncode(s);
    PercentEncodeAlphabet(s);
  }
}
