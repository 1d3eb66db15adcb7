/** Splitting a sequence at a separator, and putting parts together again. */
module Sequences {

  /** The parts between the separators, empty ones included; never an empty list. */
  function Split<T(==)>(s: seq<T>, sep: T): (parts: seq<seq<T>>)
    ensures |parts| > 0
  {
    if s == [] then [[]]
    else
      var rest := Split(s[1..], sep);
      if s[0] == sep then [[]] + rest
      else [[s[0]] + rest[0]] + rest[1..]
  }

  function Join<T>(parts: seq<seq<T>>, sep: T): (s: seq<T>)
  {
    if parts == [] then []
    else if |parts| == 1 then parts[0]
    else parts[0] + [sep] + Join(parts[1..], sep)
  }

  function Flatten<T>(parts: seq<seq<T>>): seq<T> {
    if parts == [] then [] else parts[0] + Flatten(parts[1..])
  }

  lemma FlattenCons<T>(head: seq<T>, tail: seq<seq<T>>)
    ensures Flatten([head] + tail) == head + Flatten(tail)
  {
    assert ([head] + tail)[1..] == tail;
  }

  lemma {:induction false} FlattenAppend<T>(parts: seq<seq<T>>, part: seq<T>)
    ensures Flatten(parts + [part]) == Flatten(parts) + part
  {
    if parts == [] {
      assert parts + [part] == [part];
      assert Flatten([part][1..]) == [];
    } else {
      assert (parts + [part])[1..] == parts[1..] + [part];
      FlattenAppend(parts[1..], part);
    }
  }

  function Map<T, U>(f: T -> U, s: seq<T>): seq<U> {
    if s == [] then [] else Map(f, s[..|s| - 1]) + [f(s[|s| - 1])]
  }

  lemma {:induction false} MapConcat<T, U>(f: T -> U, a: seq<T>, b: seq<T>)
    ensures Map(f, a + b) == Map(f, a) + Map(f, b)
  {
    if b == [] {
      assert a + b == a;
    } else {
      assert (a + b)[..|a + b| - 1] == a + b[..|b| - 1];
      MapConcat(f, a, b[..|b| - 1]);
    }
  }

  ghost predicate Injective<T(!new), U>(f: T -> U) {
    forall x, y :: f(x) == f(y) ==> x == y
  }

  lemma CountAfterAppend<T>(s: seq<T>, x: T, y: T)
    ensures multiset(s + [x])[y] == multiset(s)[y] + if x == y then 1 else 0
  {}

  /** An injective function keeps the number of occurrences. */
  lemma {:induction false} MapKeepsCount<T(!new), U>(f: T -> U, s: seq<T>, x: T)
    requires Injective(f)
    ensures multiset(Map(f, s))[f(x)] == multiset(s)[x]
  {
    if s != [] {
      var init, last := s[..|s| - 1], s[|s| - 1];
      MapKeepsCount(f, init, x);
      assert s == init + [last];
      CountAfterAppend(init, last, x);
      CountAfterAppend(Map(f, init), f(last), f(x));
    }
  }

  lemma {:induction false} MapHasSource<T, U>(f: T -> U, s: seq<T>, y: U) returns (x: T)
    requires y in Map(f, s)
    ensures x in s && y == f(x)
  {
    var init, last := s[..|s| - 1], s[|s| - 1];
    if y == f(last) {
      x := last;
    } else {
      x := MapHasSource(f, init, y);
    }
  }

  lemma ImageCountAgrees<T(!new), U>(f: T -> U, a: seq<T>, b: seq<T>, y: U)
    requires Injective(f) && multiset(a) == multiset(b)
    ensures multiset(Map(f, a))[y] == multiset(Map(f, b))[y]
  {
    if y in Map(f, a) {
      var x := MapHasSource(f, a, y);
      MapKeepsCount(f, a, x);
      MapKeepsCount(f, b, x);
    } else if y in Map(f, b) {
      var x := MapHasSource(f, b, y);
      MapKeepsCount(f, a, x);
      MapKeepsCount(f, b, x);
    } else {
      assert y !in multiset(Map(f, a)) && y !in multiset(Map(f, b));
    }
  }

  /** So two lists differ in order only exactly when their images do. */
  lemma MapKeepsMultisets<T(!new), U(!new)>(f: T -> U, a: seq<T>, b: seq<T>)
    requires Injective(f)
    ensures multiset(Map(f, a)) == multiset(Map(f, b)) <==> multiset(a) == multiset(b)
  {
    if multiset(Map(f, a)) == multiset(Map(f, b)) {
      forall x ensures multiset(a)[x] == multiset(b)[x] {
        MapKeepsCount(f, a, x);
        MapKeepsCount(f, b, x);
      }
      assert multiset(a) == multiset(b);
    }
    if multiset(a) == multiset(b) {
      forall y ensures multiset(Map(f, a))[y] == multiset(Map(f, b))[y] {
        ImageCountAgrees(f, a, b, y);
      }
      assert multiset(Map(f, a)) == multiset(Map(f, b));
    }
  }

  lemma Reassociate<T>(a: seq<T>, b: seq<T>, c: seq<T>, d: seq<T>)
    ensures a + (b + c + d) == (a + b + c) + d
    ensures (a + b) + c + d == a + (b + c) + d
    ensures (b + c) + d == b + (c + d)
  {}

  lemma Regroup<T>(a: seq<T>, b: seq<T>, c: seq<T>, d: seq<T>)
    ensures a + b + c + d == a + (b + c + d)
  {
    assert a + b + c == a + (b + c);
    assert a + (b + c) + d == a + (b + c + d);
  }

  lemma MoveOne<T>(a: seq<T>, b: seq<T>)
    requires b != []
    ensures a + [b[0]] + b[1..] == a + b
  {
    assert b == [b[0]] + b[1..];
  }

  predicate OccursAt<T(==)>(w: seq<T>, s: seq<T>, i: nat) {
    i + |w| <= |s| && s[i..i + |w|] == w
  }

  lemma OccurrenceStarts<T>(w: seq<T>, s: seq<T>, i: nat)
    requires w != []
    ensures OccursAt(w, s, i) ==> s[i] == w[0]
  {
    assert i + |w| <= |s| ==> s[i..i + |w|][0] == s[i];
  }

  lemma SplitLast<T>(s: seq<T>)
    requires s != []
    ensures s == s[..|s| - 1] + [s[|s| - 1]]
  {}

  lemma Associate<T>(a: seq<T>, b: seq<T>, c: seq<T>)
    ensures a + b + c == a + (b + c)
  {}

  lemma EmptyLeft<T>(a: seq<T>)
    ensures [] + a == a && a + [] == a
  {}

  ghost predicate NoneContains<T>(parts: seq<seq<T>>, sep: T) {
    forall i :: 0 <= i < |parts| ==> sep !in parts[i]
  }

  lemma {:induction false} SplitHasNoSeparator<T>(s: seq<T>, sep: T)
    ensures NoneContains(Split(s, sep), sep)
  {
    if s != [] {
      SplitHasNoSeparator(s[1..], sep);
    }
  }

  lemma {:induction false} JoinOfSplit<T>(s: seq<T>, sep: T)
    ensures Join(Split(s, sep), sep) == s
  {
    if s != [] {
      var rest := Split(s[1..], sep);
      JoinOfSplit(s[1..], sep);
      if s[0] == sep {
        assert ([[]] + rest)[1..] == rest;
      } else {
        var parts := [[s[0]] + rest[0]] + rest[1..];
        assert parts[1..] == rest[1..];
      }
    }
  }

  lemma {:induction false} SplitOfSeparatorFree<T>(s: seq<T>, sep: T)
    requires sep !in s
    ensures Split(s, sep) == [s]
  {
    if s != [] {
      SplitOfSeparatorFree(s[1..], sep);
      assert [s[0]] + s[1..] == s;
    }
  }

  lemma FirstPartGrows<T>(x: T, a: seq<seq<T>>, b: seq<seq<T>>)
    requires a != []
    ensures [[x] + (a + b)[0]] + (a + b)[1..] == [[x] + a[0]] + a[1..] + b
  {
    assert (a + b)[0] == a[0] && (a + b)[1..] == a[1..] + b;
    Associate([[x] + a[0]], a[1..], b);
  }

  /** Splitting distributes over a separator. */
  lemma {:induction false} SplitOfConcat<T>(s: seq<T>, sep: T, t: seq<T>)
    ensures Split(s + [sep] + t, sep) == Split(s, sep) + Split(t, sep)
  {
    var whole := s + [sep] + t;
    if s == [] {
      assert whole == [sep] + t;
    } else {
      assert whole[0] == s[0] && whole[1..] == s[1..] + [sep] + t;
      SplitOfConcat(s[1..], sep, t);
      var first, rest := Split(s[1..], sep), Split(t, sep);
      if s[0] == sep {
        Associate([[]], first, rest);
      } else {
        FirstPartGrows(s[0], first, rest);
      }
    }
  }

  lemma {:induction false} SplitOfJoin<T>(parts: seq<seq<T>>, sep: T)
    requires parts != [] && NoneContains(parts, sep)
    ensures Split(Join(parts, sep), sep) == parts
  {
    if |parts| == 1 {
      SplitOfSeparatorFree(parts[0], sep);
    } else {
      SplitOfJoin(parts[1..], sep);
      SplitOfSeparatorFree(parts[0], sep);
      SplitOfConcat(parts[0], sep, Join(parts[1..], sep));
    }
  }
}
