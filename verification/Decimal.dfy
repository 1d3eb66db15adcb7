/** Python's str() and int() for whole numbers in base 10. */
module Decimal {
  import opened Wrappers
  import opened Sequences

  predicate IsDigit(c: Octet) {
    '0' <= c <= '9'
  }

  function Digit(n: nat): (c: Octet)
    requires n < 10
    ensures IsDigit(c)
  {
    '0' + n as char
  }

  function DigitValue(c: Octet): nat
    requires IsDigit(c)
  {
    (c - '0') as nat
  }

  /** str(n) */
  function ToString(n: nat): (s: seq<Octet>) {
    if n < 10 then [Digit(n)] else ToString(n / 10) + [Digit(n % 10)]
  }

  /** The white space int() strips from an ASCII string. */
  predicate IsSpace(c: Octet) {
    c == ' ' || '\t' <= c <= '\r'
  }

  function StripLeft(s: seq<Octet>): seq<Octet> {
    if s != [] && IsSpace(s[0]) then StripLeft(s[1..]) else s
  }

  function StripRight(s: seq<Octet>): seq<Octet> {
    if s != [] && IsSpace(s[|s| - 1]) then StripRight(s[..|s| - 1]) else s
  }

  /** Digits, with single underscores allowed between them. */
  predicate IsNumeral(s: seq<Octet>) {
    && s != [] && IsDigit(s[0]) && IsDigit(s[|s| - 1])
    && (forall i :: 0 <= i < |s| ==> IsDigit(s[i]) || s[i] == '_')
    && (forall i :: 0 < i < |s| ==> s[i - 1] != '_' || s[i] != '_')
  }

  function Value(s: seq<Octet>): nat
    requires forall i :: 0 <= i < |s| ==> IsDigit(s[i]) || s[i] == '_'
  {
    if s == [] then 0
    else if s[|s| - 1] == '_' then Value(s[..|s| - 1])
    else 10 * Value(s[..|s| - 1]) + DigitValue(s[|s| - 1])
  }

  /** A number without white space around it. */
  function SignedInt(t: seq<Octet>): Option<int> {
    var signed := t != [] && (t[0] == '-' || t[0] == '+');
    var numeral := if signed then t[1..] else t;
    if !IsNumeral(numeral) then None
    else
      var n: int := Value(numeral);
      Some(if signed && t[0] == '-' then -n else n)
  }

  /** int(s) for an ASCII string; None stands for ValueError. */
  function AsciiInt(s: seq<Octet>): Option<int> {
    SignedInt(StripRight(StripLeft(s)))
  }

  predicate IsAscii(s: seq<Octet>) {
    forall i :: 0 <= i < |s| ==> s[i] < 128 as char
  }

  lemma {:induction false} ToStringIsNumeral(n: nat)
    ensures var s := ToString(n);
            s != [] && (forall i :: 0 <= i < |s| ==> IsDigit(s[i])) && Value(s) == n
  {
    if n >= 10 {
      ToStringIsNumeral(n / 10);
      var init := ToString(n / 10);
      assert ToString(n)[..|init|] == init;
    }
  }

  // ---- what int() reads ----

  /** The characters int() takes for digits and for white space, listed. */
  lemma Characters(c: Octet)
    ensures IsDigit(c) <==> c in "0123456789"
    ensures IsSpace(c) <==> c in "\t\n\r " || c as int == 11 || c as int == 12
  {}

  lemma DigitsInOrder(n: nat)
    requires n < 10
    ensures Digit(n) == "0123456789"[n] && DigitValue("0123456789"[n]) == n
  {}

  predicate IsDigits(s: seq<Octet>) {
    s != [] && forall i :: 0 <= i < |s| ==> s[i] in "0123456789"
  }

  /** Digits, an underscore, and a numeral again; or digits only. */
  lemma NumeralCut(s: seq<Octet>, k: nat)
    requires k < |s| && s[k] == '_' && '_' !in s[..k]
    ensures IsNumeral(s) <==> IsDigits(s[..k]) && IsNumeral(s[k + 1..])
  {
    var a, b := s[..k], s[k + 1..];
    forall i | 0 <= i < |a| ensures a[i] == s[i] && a[i] != '_' {
      assert a[i] in a;
    }
    assert forall i :: 0 <= i < |b| ==> b[i] == s[k + 1 + i];
    assert forall i :: k < i < |s| ==> s[i] == b[i - k - 1];
    if IsNumeral(s) {
      assert k > 0;
      assert IsDigits(a) && b != [];
      assert s[k + 1] != '_';
    }
    if IsDigits(a) && IsNumeral(b) {
      forall i | 0 < i < |s| ensures s[i - 1] != '_' || s[i] != '_' {
        if i > k + 1 {
          assert b[i - 1 - k - 1] != '_' || b[i - k - 1] != '_';
        }
      }
    }
  }

  ghost predicate AllDigits(groups: seq<seq<Octet>>) {
    forall i :: 0 <= i < |groups| ==> IsDigits(groups[i])
  }

  lemma GroupsOf(s: seq<Octet>, k: nat)
    requires k < |s| && s[k] == '_' && '_' !in s[..k]
    ensures Split<Octet>(s, '_') == [s[..k]] + Split<Octet>(s[k + 1..], '_')
  {
    assert s == s[..k] + ['_'] + s[k + 1..];
    SplitOfConcat<Octet>(s[..k], '_', s[k + 1..]);
    SplitOfSeparatorFree<Octet>(s[..k], '_');
  }

  lemma AllDigitsCons(first: seq<Octet>, rest: seq<seq<Octet>>)
    ensures AllDigits([first] + rest) <==> IsDigits(first) && AllDigits(rest)
  {
    var all := [first] + rest;
    assert all[0] == first && forall i :: 0 <= i < |rest| ==> all[i + 1] == rest[i];
    assert forall i :: 0 < i < |all| ==> all[i] == rest[i - 1];
  }

  lemma DigitsAreNumeral(s: seq<Octet>)
    requires '_' !in s
    ensures IsNumeral(s) <==> IsDigits(s)
  {
    assert forall i :: 0 <= i < |s| ==> s[i] != '_';
  }

  /** A numeral is groups of digits with single underscores between them. */
  lemma {:induction false} NumeralIff(s: seq<Octet>)
    ensures IsNumeral(s) <==> AllDigits(Split<Octet>(s, '_'))
    decreases |s|
  {
    if '_' in s {
      var k := FirstIndex(s, '_');
      NumeralCut(s, k);
      NumeralIff(s[k + 1..]);
      GroupsOf(s, k);
      AllDigitsCons(s[..k], Split<Octet>(s[k + 1..], '_'));
    } else {
      SplitOfSeparatorFree<Octet>(s, '_');
      DigitsAreNumeral(s);
      assert [s][0] == s;
      AllDigitsCons(s, []);
      EmptyLeft([s]);
    }
  }

  lemma {:induction false} FirstIndex(s: seq<Octet>, c: Octet) returns (k: nat)
    requires c in s
    ensures k < |s| && s[k] == c && c !in s[..k]
  {
    if s[0] == c {
      k := 0;
    } else {
      var j := FirstIndex(s[1..], c);
      k := j + 1;
      assert s[..k] == [s[0]] + s[1..][..j];
    }
  }

  /** A further digit counts ten times what was there; leading zeros and underscores count nothing. */
  lemma ValueMeaning(s: seq<Octet>, n: nat)
    requires n < 10 && forall i :: 0 <= i < |s| ==> IsDigit(s[i]) || s[i] == '_'
    ensures Value([]) == 0 && Value(s + ["0123456789"[n]]) == 10 * Value(s) + n
    ensures Value(s + ['_']) == Value(s)
  {
    DigitsInOrder(n);
    assert (s + ["0123456789"[n]])[..|s|] == s && (s + ['_'])[..|s|] == s;
  }

  predicate AllSpace(s: seq<Octet>) {
    forall i :: 0 <= i < |s| ==> IsSpace(s[i])
  }

  lemma {:induction false} StripLeftCut(s: seq<Octet>) returns (left: seq<Octet>)
    ensures s == left + StripLeft(s) && AllSpace(left)
    ensures StripLeft(s) == [] || !IsSpace(StripLeft(s)[0])
  {
    if s != [] && IsSpace(s[0]) {
      var rest := StripLeftCut(s[1..]);
      left := [s[0]] + rest;
    } else {
      left := [];
    }
  }

  lemma {:induction false} StripRightCut(s: seq<Octet>) returns (right: seq<Octet>)
    ensures s == StripRight(s) + right && AllSpace(right)
  {
    if s != [] && IsSpace(s[|s| - 1]) {
      var rest := StripRightCut(s[..|s| - 1]);
      right := rest + [s[|s| - 1]];
    } else {
      right := [];
    }
  }

  lemma {:induction false} StripLeftOf(left: seq<Octet>, s: seq<Octet>)
    requires AllSpace(left) && s != [] && !IsSpace(s[0])
    ensures StripLeft(left + s) == s
  {
    if left == [] {
      assert left + s == s;
    } else {
      assert (left + s)[1..] == left[1..] + s;
      StripLeftOf(left[1..], s);
    }
  }

  lemma {:induction false} StripRightOf(s: seq<Octet>, right: seq<Octet>)
    requires AllSpace(right) && s != [] && !IsSpace(s[|s| - 1])
    ensures StripRight(s + right) == s
  {
    if right == [] {
      assert s + right == s;
    } else {
      var all := s + right;
      assert all[..|all| - 1] == s + right[..|right| - 1];
      StripRightOf(s, right[..|right| - 1]);
    }
  }

  /** A number as int() accepts it: white space, an optional sign, a numeral, white space. */
  ghost predicate IsWritten(s: seq<Octet>, left: seq<Octet>, sign: seq<Octet>, digits: seq<Octet>, right: seq<Octet>) {
    s == left + (sign + digits) + right && AllSpace(left) && AllSpace(right)
    && sign in {[], ['+'], ['-']} && IsNumeral(digits)
  }

  /** What a numeral stands for under a sign. */
  function Signed(sign: seq<Octet>, digits: seq<Octet>): int
    requires IsNumeral(digits)
  {
    if sign == ['-'] then 0 - Value(digits) else Value(digits)
  }

  lemma SignIsRead(sign: seq<Octet>, digits: seq<Octet>)
    requires sign in {[], ['+'], ['-']} && IsNumeral(digits)
    ensures SignedInt(sign + digits) == Some(Signed(sign, digits))
    ensures var t := sign + digits; t != [] && !IsSpace(t[0]) && !IsSpace(t[|t| - 1])
  {
    var t := sign + digits;
    assert t[|t| - 1] == digits[|digits| - 1];
    if sign == [] {
      assert t == digits;
    } else {
      assert t[1..] == digits;
    }
  }

  lemma StripsAround(left: seq<Octet>, core: seq<Octet>, right: seq<Octet>)
    requires AllSpace(left) && AllSpace(right) && core != [] && !IsSpace(core[0]) && !IsSpace(core[|core| - 1])
    ensures StripRight(StripLeft(left + core + right)) == core
  {
    assert left + core + right == left + (core + right);
    StripLeftOf(left, core + right);
    StripRightOf(core, right);
  }

  lemma WrittenIsRead(s: seq<Octet>, left: seq<Octet>, sign: seq<Octet>, digits: seq<Octet>, right: seq<Octet>)
    requires IsWritten(s, left, sign, digits, right)
    ensures AsciiInt(s) == Some(Signed(sign, digits))
  {
    SignIsRead(sign, digits);
    StripsAround(left, sign + digits, right);
  }

  lemma ReadIsWritten(t: seq<Octet>) returns (sign: seq<Octet>, digits: seq<Octet>)
    requires SignedInt(t).Some?
    ensures t == sign + digits && sign in {[], ['+'], ['-']} && IsNumeral(digits)
  {
    if t[0] == '-' || t[0] == '+' {
      sign, digits := [t[0]], t[1..];
    } else {
      sign, digits := [], t;
    }
  }

  lemma WrittenForm(s: seq<Octet>)
      returns (left: seq<Octet>, sign: seq<Octet>, digits: seq<Octet>, right: seq<Octet>)
    requires AsciiInt(s).Some?
    ensures IsWritten(s, left, sign, digits, right) && AsciiInt(s) == Some(Signed(sign, digits))
  {
    left := StripLeftCut(s);
    right := StripRightCut(StripLeft(s));
    sign, digits := ReadIsWritten(StripRight(StripLeft(s)));
    SignIsRead(sign, digits);
    Associate(left, sign + digits, right);
  }

  /** int(s) is n exactly when s is such a number with that value; anything else raises. */
  lemma AsciiIntIff(s: seq<Octet>, n: int)
    ensures AsciiInt(s) == Some(n) <==>
            exists left, sign, digits, right ::
              IsWritten(s, left, sign, digits, right) && n == Signed(sign, digits)
  {
    if AsciiInt(s) == Some(n) {
      var left, sign, digits, right := WrittenForm(s);
    }
    forall left, sign, digits, right | IsWritten(s, left, sign, digits, right)
      ensures AsciiInt(s) == Some(Signed(sign, digits))
    {
      WrittenIsRead(s, left, sign, digits, right);
    }
  }

  /** int(str(n)) == n */
  lemma IntOfString(n: nat)
    ensures AsciiInt(ToString(n)) == Some(n)
    ensures IsAscii(ToString(n)) && '\n' !in ToString(n)
  {
    var s := ToString(n);
    ToStringIsNumeral(n);
    EmptyLeft(s);
    assert [] + ([] + s) + [] == s;
    WrittenIsRead(s, [], [], s, []);
  }
}
