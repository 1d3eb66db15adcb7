/** Parameters as text: "key=value" for each, joined by "&", everything percent-encoded. */
module FormText {
  import opened Wrappers
  import opened Sequences
  import opened Percent

  function Assignment(p: Pair): Octets {
    Encode(p.0) + ['='] + Encode(p.1)
  }

  function Text(ps: seq<Pair>): Octets {
    if ps == [] then []
    else if |ps| == 1 then Assignment(ps[0])
    else Text(ps[..|ps| - 1]) + ['&'] + Assignment(ps[|ps| - 1])
  }

  /** Joining tokens from the left, as Text does, or from the right, as Join does. */
  lemma {:induction false} JoinSnoc(tokens: seq<Octets>, last: Octets, sep: Octet)
    requires tokens != []
    ensures Join(tokens + [last], sep) == Join(tokens, sep) + [sep] + last
  {
    var all := tokens + [last];
    if |tokens| == 1 {
      assert all[1..] == [last];
      assert Join(all, sep) == tokens[0] + [sep] + Join([last], sep);
    } else {
      assert all[1..] == tokens[1..] + [last];
      JoinSnoc(tokens[1..], last, sep);
      Regroup(tokens[0], [sep], Join(tokens[1..], sep), [sep]);
      assert Join(all, sep) == tokens[0] + [sep] + (Join(tokens[1..], sep) + [sep] + last);
      Regroup(tokens[0] + [sep], Join(tokens[1..], sep), [sep], last);
    }
  }

  lemma TextSnoc(ps: seq<Pair>, last: Pair)
    requires ps != []
    ensures Text(ps + [last]) == Text(ps) + ['&'] + Assignment(last)
  {
    assert (ps + [last])[..|ps|] == ps;
  }

  lemma JoinedSnoc(tokens: seq<Octets>, ps: seq<Pair>, last: Pair)
    requires tokens != [] && ps != [] && Join<Octet>(tokens, '&') == Text(ps)
    ensures Join<Octet>(tokens + [Assignment(last)], '&') == Text(ps + [last])
  {
    JoinSnoc(tokens, Assignment(last), '&');
    TextSnoc(ps, last);
  }

  /** Tokens that are the assignments, joined, are the text. */
  lemma {:induction false} JoinedAssignments(tokens: seq<Octets>, ps: seq<Pair>)
    requires |tokens| == |ps| && forall i :: 0 <= i < |ps| ==> tokens[i] == Assignment(ps[i])
    ensures Join<Octet>(tokens, '&') == Text(ps)
  {
    if |ps| > 1 {
      var n := |ps| - 1;
      SplitLast(tokens);
      SplitLast(ps);
      JoinedAssignments(tokens[..n], ps[..n]);
      JoinedSnoc(tokens[..n], ps[..n], ps[n]);
    }
  }
}
