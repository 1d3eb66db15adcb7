/** URI templates with {name} holes, filled in two stages: ParameterizedString and its renderer. */
module Template {
  import opened Sequences

  /** A lookup gives the text for a name, and "" where the source finds nothing or a falsy value. */
  type Lookup = string -> string

  const OPEN := '{'
  const CLOSE := '}'

  /** The index of the first closing brace, or the length. */
  function FirstClose(s: string): (k: nat)
    ensures k <= |s| && CLOSE !in s[..k] && (k < |s| <==> CLOSE in s) && (k < |s| ==> s[k] == CLOSE)
  {
    if s == "" || s[0] == CLOSE then 0
    else
      var k := FirstClose(s[1..]);
      assert s[..k + 1] == [s[0]] + s[1..][..k];
      k + 1
  }

  /** template.replace(/\{([^}]*)\}/g, fill): from left to right, the result not looked at again. */
  function Replace(template: string, fill: Lookup): string
    decreases |template|
  {
    if template == "" then ""
    else if template[0] == OPEN && CLOSE in template then
      var k := FirstClose(template);
      fill(template[1..k]) + Replace(template[k + 1..], fill)
    else [template[0]] + Replace(template[1..], fill)
  }

  function Hole(name: string): string {
    [OPEN] + name + [CLOSE]
  }

  /** The constructor's replacement: a value where there is one, else the hole again. */
  function Early(values: Lookup): Lookup {
    name => if values(name) != "" then values(name) else Hole(name)
  }

  /** The template that a ParameterizedString keeps. */
  function Construct(values: Lookup, template: string): string {
    Replace(template, Early(values))
  }

  /** render(context) of a template */
  function Render(template: string, context: Lookup): string {
    Replace(template, context)
  }

  /** Both lookups in one pass, the early one first. */
  function Either(values: Lookup, context: Lookup): Lookup {
    name => if values(name) != "" then values(name) else context(name)
  }

  /** An opening brace in v finds a closing one in v or in what follows. */
  predicate OpensHole(v: string, after: string) {
    exists i :: 0 <= i < |v| && v[i] == OPEN && (CLOSE in v[i..] || CLOSE in after)
  }

  /** No value put in by the constructor opens a hole in the template it makes. */
  predicate Safe(values: Lookup, template: string)
    decreases |template|
  {
    if template == "" then true
    else if template[0] == OPEN && CLOSE in template then
      var k := FirstClose(template);
      var rest := template[k + 1..];
      !OpensHole(values(template[1..k]), Construct(values, rest)) && Safe(values, rest)
    else Safe(values, template[1..])
  }

  lemma {:induction false} WithoutCloseNothingHappens(s: string, fill: Lookup)
    requires CLOSE !in s
    ensures Replace(s, fill) == s
  {
    if s != "" {
      WithoutCloseNothingHappens(s[1..], fill);
    }
  }

  lemma {:induction false} FirstCloseIs(s: string, k: nat)
    requires k < |s| && s[k] == CLOSE && CLOSE !in s[..k]
    ensures FirstClose(s) == k
  {
    if k > 0 {
      assert s[..k] == [s[0]] + s[1..][..k - 1];
      FirstCloseIs(s[1..], k - 1);
    }
  }

  lemma FirstCloseAt(a: string, b: string)
    requires CLOSE !in a
    ensures FirstClose(a + [CLOSE] + b) == |a|
  {
    var s := a + [CLOSE] + b;
    assert s[..|a|] == a;
    FirstCloseIs(s, |a|);
  }

  lemma NamesHoldNoClose(template: string)
    requires template != "" && template[0] == OPEN && CLOSE in template
    ensures FirstClose(template) > 0 && CLOSE !in template[1..FirstClose(template)]
  {
    var k := FirstClose(template);
    forall i | 1 <= i < k ensures template[i] != CLOSE {
      assert template[i] == template[..k][i];
    }
  }

  lemma HoleIsFilled(name: string, rest: string, fill: Lookup)
    requires CLOSE !in name
    ensures Replace([OPEN] + name + [CLOSE] + rest, fill) == fill(name) + Replace(rest, fill)
  {
    var s := [OPEN] + name + [CLOSE] + rest;
    FirstCloseAt([OPEN] + name, rest);
    assert s[|name| + 1] == CLOSE;
    assert s[1..|name| + 1] == name && s[|name| + 2..] == rest;
  }

  lemma OpensHoleStep(v: string, after: string)
    requires v != ""
    ensures OpensHole(v, after) <==> (v[0] == OPEN && CLOSE in v + after) || OpensHole(v[1..], after)
  {
    if v[0] == OPEN && CLOSE in v + after {
      assert v[0..] == v;
    }
    if OpensHole(v[1..], after) {
      var i :| 0 <= i < |v[1..]| && v[1..][i] == OPEN && (CLOSE in v[1..][i..] || CLOSE in after);
      assert v[i + 1] == OPEN && v[i + 1..] == v[1..][i..];
    }
    if OpensHole(v, after) && !(v[0] == OPEN && CLOSE in v + after) {
      var i :| 0 <= i < |v| && v[i] == OPEN && (CLOSE in v[i..] || CLOSE in after);
      if i == 0 {
        assert v[0..] == v;
      } else {
        assert v[1..][i - 1] == OPEN && v[1..][i - 1..] == v[i..];
      }
    }
  }

  /** A value that opens no hole is copied as it is. */
  lemma {:induction false} ValueIsKept(v: string, after: string, fill: Lookup)
    requires !OpensHole(v, after)
    ensures Replace(v + after, fill) == v + Replace(after, fill)
  {
    if v == "" {
      assert v + after == after;
    } else {
      OpensHoleStep(v, after);
      assert (v + after)[1..] == v[1..] + after;
      ValueIsKept(v[1..], after, fill);
      assert v == [v[0]] + v[1..];
      Associate([v[0]], v[1..], Replace(after, fill));
    }
  }

  /** A character that starts no hole goes through both stages. */
  lemma LiteralPasses(values: Lookup, context: Lookup, template: string)
    requires template != "" && !(template[0] == OPEN && CLOSE in template)
    ensures Render(Construct(values, template), context) ==
            [template[0]] + Render(Construct(values, template[1..]), context)
  {
    var c, tail := template[0], Construct(values, template[1..]);
    assert ([c] + tail)[1..] == tail;
    if c == OPEN {
      WithoutCloseNothingHappens(template[1..], Early(values));
    }
  }

  /** The two stages give what one pass gives, whatever the context, when the values are safe. */
  lemma {:induction false} TwoStagesAreOne(values: Lookup, context: Lookup, template: string)
    requires Safe(values, template)
    ensures Render(Construct(values, template), context) == Replace(template, Either(values, context))
    decreases |template|
  {
    if template == "" {
    } else if template[0] == OPEN && CLOSE in template {
      var k := FirstClose(template);
      var name, rest := template[1..k], template[k + 1..];
      NamesHoldNoClose(template);
      TwoStagesAreOne(values, context, rest);
      if values(name) != "" {
        ValueIsKept(values(name), Construct(values, rest), context);
      } else {
        HoleIsFilled(name, Construct(values, rest), context);
      }
    } else {
      TwoStagesAreOne(values, context, template[1..]);
      LiteralPasses(values, context, template);
    }
  }

  // ---- and only then ----

  /** The empty context: rendering deletes every hole. */
  function Nothing(): Lookup {
    name => ""
  }

  lemma {:induction false} SkippingToClose(s: string)
    requires CLOSE in s
    ensures FirstClose(s) < |s|
    ensures |Render(s[FirstClose(s) + 1..], Nothing())| <= |Render(s, Nothing())|
  {
    if s[0] == OPEN {
      assert Render(s, Nothing()) == "" + Render(s[FirstClose(s) + 1..], Nothing());
    } else {
      assert Render(s, Nothing()) == [s[0]] + Render(s[1..], Nothing());
      if s[0] != CLOSE {
        SkippingToClose(s[1..]);
        assert s[FirstClose(s) + 1..] == s[1..][FirstClose(s[1..]) + 1..];
      }
    }
  }

  lemma DeletingIntoRest(v: string, after: string)
    requires CLOSE in v + after && FirstClose(v + after) >= |v|
    ensures |Render((v + after)[FirstClose(v + after) + 1..], Nothing())| <= |Render(after, Nothing())|
  {
    var s, k := v + after, FirstClose(v + after);
    CloseIsInRest(v, after);
    assert s[k + 1..] == after[FirstClose(after) + 1..];
    SkippingToClose(after);
  }

  lemma CloseIsInRest(v: string, after: string)
    requires CLOSE in v + after && FirstClose(v + after) >= |v|
    ensures CLOSE in after && FirstClose(v + after) == |v| + FirstClose(after)
  {
    var s, k := v + after, FirstClose(v + after);
    assert s[..k] == v + after[..k - |v|];
    FirstCloseIs(after, k - |v|);
  }

  lemma DeletingLiteral(v: string, after: string)
    requires v != "" && !(v[0] == OPEN && CLOSE in v + after)
    ensures |Render(v + after, Nothing())| == 1 + |Render(v[1..] + after, Nothing())|
  {
    assert (v + after)[1..] == v[1..] + after;
  }

  lemma DeletingHole(v: string, after: string)
    requires v != "" && v[0] == OPEN && CLOSE in v + after && FirstClose(v + after) < |v|
    ensures |Render(v + after, Nothing())| == |Render(v[FirstClose(v + after) + 1..] + after, Nothing())|
  {
    var s, k := v + after, FirstClose(v + after);
    assert s[k + 1..] == v[k + 1..] + after;
    assert Render(s, Nothing()) == "" + Render(s[k + 1..], Nothing());
  }

  lemma DeletingHoleIntoRest(v: string, after: string)
    requires v != "" && v[0] == OPEN && CLOSE in v + after && FirstClose(v + after) >= |v|
    ensures |Render(v + after, Nothing())| <= |Render(after, Nothing())|
  {
    var s, k := v + after, FirstClose(v + after);
    DeletingIntoRest(v, after);
    assert Render(s, Nothing()) == "" + Render(s[k + 1..], Nothing());
  }

  /** Deleting the holes of v + after leaves at most v and what is left of after. */
  lemma {:induction false} DeletingAfterValue(v: string, after: string)
    ensures |Render(v + after, Nothing())| <= |v| + |Render(after, Nothing())|
    ensures OpensHole(v, after) ==> |Render(v + after, Nothing())| < |v| + |Render(after, Nothing())|
    decreases |v|
  {
    if v == "" {
      EmptyLeft(after);
    } else {
      OpensHoleStep(v, after);
      if !(v[0] == OPEN && CLOSE in v + after) {
        DeletingLiteral(v, after);
        DeletingAfterValue(v[1..], after);
      } else if FirstClose(v + after) < |v| {
        DeletingHole(v, after);
        DeletingAfterValue(v[FirstClose(v + after) + 1..], after);
      } else {
        DeletingHoleIntoRest(v, after);
      }
    }
  }

  /** What deleting leaves of what the constructor puts in place of one hole. */
  lemma DeletingAfterHole(values: Lookup, name: string, after: string)
    requires CLOSE !in name
    ensures var two := |Render(Early(values)(name) + after, Nothing())|;
            var one := |values(name)| + |Render(after, Nothing())|;
            two <= one && (two == one <==> !OpensHole(values(name), after))
  {
    if values(name) != "" {
      DeletingAfterValue(values(name), after);
      if !OpensHole(values(name), after) {
        ValueIsKept(values(name), after, Nothing());
      }
    } else {
      HoleIsFilled(name, after, Nothing());
      assert "" + Render(after, Nothing()) == Render(after, Nothing());
    }
  }

  /** The length that deleting leaves of the constructed template, and that of one pass. */
  function TwoStageLength(values: Lookup, template: string): nat {
    |Render(Construct(values, template), Nothing())|
  }

  function OnePassLength(values: Lookup, template: string): nat {
    |Replace(template, Either(values, Nothing()))|
  }

  lemma LengthsAtHole(values: Lookup, template: string)
    requires template != "" && template[0] == OPEN && CLOSE in template && FirstClose(template) > 0
    ensures var name, rest := template[1..FirstClose(template)], template[FirstClose(template) + 1..];
            && TwoStageLength(values, template) ==
               |Render(Early(values)(name) + Construct(values, rest), Nothing())|
            && OnePassLength(values, template) == |values(name)| + OnePassLength(values, rest)
  {}

  lemma LengthsAtLiteral(values: Lookup, template: string)
    requires template != "" && !(template[0] == OPEN && CLOSE in template)
    ensures TwoStageLength(values, template) == 1 + TwoStageLength(values, template[1..])
    ensures OnePassLength(values, template) == 1 + OnePassLength(values, template[1..])
  {
    LiteralPasses(values, Nothing(), template);
  }

  lemma {:induction false} LengthsAgreeIffSafe(values: Lookup, template: string)
    ensures TwoStageLength(values, template) <= OnePassLength(values, template)
    ensures TwoStageLength(values, template) == OnePassLength(values, template) <==> Safe(values, template)
    decreases |template|
  {
    if template == "" {
    } else if template[0] == OPEN && CLOSE in template {
      NamesHoldNoClose(template);
      var name, rest := template[1..FirstClose(template)], template[FirstClose(template) + 1..];
      LengthsAgreeIffSafe(values, rest);
      LengthsAtHole(values, template);
      DeletingAfterHole(values, name, Construct(values, rest));
    } else {
      LengthsAgreeIffSafe(values, template[1..]);
      LengthsAtLiteral(values, template);
    }
  }

  /** For one template, the two stages agree with one pass in every context if and only if it is safe. */
  lemma StagesAgreeIffSafe(values: Lookup, template: string)
    ensures (forall context: Lookup ::
               Render(Construct(values, template), context) == Replace(template, Either(values, context)))
            <==> Safe(values, template)
  {
    if Safe(values, template) {
      forall context: Lookup
        ensures Render(Construct(values, template), context) == Replace(template, Either(values, context))
      {
        TwoStagesAreOne(values, context, template);
      }
    } else {
      LengthsAgreeIffSafe(values, template);
      assert Render(Construct(values, template), Nothing()) != Replace(template, Either(values, Nothing()));
    }
  }

  /** A name that a hole can have, and a value for it that brings an opening brace. */
  predicate Troubles(values: Lookup, name: string) {
    CLOSE !in name && OPEN in values(name)
  }

  lemma {:induction false} SafeWithoutOpenBraces(values: Lookup, template: string)
    requires forall name :: !Troubles(values, name)
    ensures Safe(values, template)
    decreases |template|
  {
    if template != "" && template[0] == OPEN && CLOSE in template {
      var k := FirstClose(template);
      var name := template[1..k];
      NamesHoldNoClose(template);
      assert !Troubles(values, name);
      SafeWithoutOpenBraces(values, template[k + 1..]);
    } else if template != "" {
      SafeWithoutOpenBraces(values, template[1..]);
    }
  }

  /** Followed by a closing brace, the hole of a troubling name makes a template that is not safe. */
  lemma TroubleIsUnsafe(values: Lookup, name: string)
    requires Troubles(values, name)
    ensures !Safe(values, [OPEN] + name + [CLOSE] + [CLOSE])
  {
    var t := [OPEN] + name + [CLOSE] + [CLOSE];
    FirstCloseAt([OPEN] + name, [CLOSE]);
    var k := FirstClose(t);
    assert t[k] == CLOSE && t[1..k] == name && t[k + 1..] == [CLOSE];
    assert [CLOSE][1..] == [] && CLOSE != OPEN;
    assert Construct(values, [CLOSE])[0] == CLOSE;
    var v := values(name);
    var i :| 0 <= i < |v| && v[i] == OPEN;
    assert OpensHole(v, [CLOSE]);
  }

  /**
   The two stages agree with one pass for every template and context if and only if no value
   that a hole can ask for holds an opening brace. Closing braces do no harm.
   */
  lemma StagesAlwaysAgreeIffNoOpenBrace(values: Lookup)
    ensures (forall template :: Safe(values, template)) <==> (forall name :: !Troubles(values, name))
  {
    if forall name :: !Troubles(values, name) {
      forall template ensures Safe(values, template) {
        SafeWithoutOpenBraces(values, template);
      }
    } else {
      var name :| Troubles(values, name);
      TroubleIsUnsafe(values, name);
    }
  }
}
