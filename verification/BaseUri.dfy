/** The base URI of api-console.js, into which the version is put early and again late. */
module BaseUri {
  import opened Sequences
  import opened Template

  /** baseUri.replace(/\/+$/, '') */
  function StripSlashes(s: string): string {
    if s != "" && s[|s| - 1] == '/' then StripSlashes(s[..|s| - 1]) else s
  }

  /** The text without the slashes at its end. */
  lemma {:induction false} StripSlashesMeaning(s: string)
    ensures StripSlashes(s) <= s
    ensures forall i :: |StripSlashes(s)| <= i < |s| ==> s[i] == '/'
    ensures StripSlashes(s) != "" ==> StripSlashes(s)[|StripSlashes(s)| - 1] != '/'
  {
    if s != "" && s[|s| - 1] == '/' {
      StripSlashesMeaning(s[..|s| - 1]);
    }
  }

  /** A plain object that has the key: its other names are answered by what it inherits, or else by "". */
  function With(lookup: Lookup, key: string, value: string): Lookup {
    name => if name == key then value else lookup(name)
  }

  /**
   getBaseUri: the version goes into the template when it is made, and into the context again. The
   object that carries it early also answers the names that every object inherits.
   */
  function GetBaseUri(inherited: Lookup, baseUri: string, version: string, parameters: Lookup): string {
    Render(Construct(With(inherited, "version", version), StripSlashes(baseUri)),
           With(parameters, "version", version))
  }

  /** What one pass over the base URI gives, the version filled in as the other parameters are. */
  function LateVersion(baseUri: string, version: string, parameters: Lookup): string {
    Render(StripSlashes(baseUri), With(parameters, "version", version))
  }

  lemma {:induction false} StripMoreSlashes(s: string, k: nat)
    ensures StripSlashes(s + seq(k, i => '/')) == StripSlashes(s)
  {
    var t := s + seq(k, i => '/');
    if k == 0 {
      assert t == s;
    } else {
      assert t[..|t| - 1] == s + seq(k - 1, i => '/');
      StripMoreSlashes(s, k - 1);
    }
  }

  /** Slashes at the end of the base URI do not count, and a base URI without holes is the result but for them. */
  lemma BaseUriMeaning(inherited: Lookup, baseUri: string, k: nat, version: string, parameters: Lookup)
    ensures GetBaseUri(inherited, baseUri + seq(k, i => '/'), version, parameters) ==
            GetBaseUri(inherited, baseUri, version, parameters)
    ensures '{' !in baseUri && (baseUri == "" || baseUri[|baseUri| - 1] != '/') ==>
              GetBaseUri(inherited, baseUri, version, parameters) == baseUri
  {
    StripMoreSlashes(baseUri, k);
    if '{' !in baseUri {
      EmptyLeft(baseUri);
      ValueIsKept(baseUri, "", Early(With(inherited, "version", version)));
      ValueIsKept(baseUri, "", With(parameters, "version", version));
    }
  }

  /** Early and late agree, for this base URI and these parameters. */
  ghost predicate Agree(inherited: Lookup, baseUri: string, version: string, parameters: Lookup) {
    GetBaseUri(inherited, baseUri, version, parameters) == LateVersion(baseUri, version, parameters)
  }

  const VERSION_HOLE := Hole("version")

  predicate IsHarmless(version: string) {
    OPEN !in version || version == VERSION_HOLE
  }

  // ---- what the early object answers for other names ----

  /** Every hole is filled with itself, but the version's with the version. */
  function Again(version: string): Lookup {
    With(name => Hole(name), "version", version)
  }

  /** The early object does not answer the name, or what it answers comes to the name's hole again. */
  predicate IsLeftAlone(inherited: Lookup, version: string, name: string) {
    name == "version" || inherited(name) == "" || Render(inherited(name), Again(version)) == Hole(name)
  }

  /** The template asks for no inherited name. */
  predicate HolesAreOwn(inherited: Lookup, version: string, template: string)
    decreases |template|
  {
    if template == "" then true
    else if template[0] == OPEN && CLOSE in template then
      var k := FirstClose(template);
      IsLeftAlone(inherited, version, template[1..k]) && HolesAreOwn(inherited, version, template[k + 1..])
    else HolesAreOwn(inherited, version, template[1..])
  }

  lemma HoleParts(s: string)
    requires s != "" && s[0] == OPEN && CLOSE in s
    ensures var k := FirstClose(s); k > 0 && s == [OPEN] + s[1..k] + [CLOSE] + s[k + 1..]
  {
    NamesHoldNoClose(s);
    var k := FirstClose(s);
    assert s[..k] == [OPEN] + s[1..k];
    assert s[..k + 1] == s[..k] + [CLOSE];
    assert s == s[..k + 1] + s[k + 1..];
  }

  /** A hole in front is read in one way only. */
  lemma HoleInFront(a: string, s: string, b: string, t: string)
    requires CLOSE !in a && CLOSE !in b && Hole(a) + s == Hole(b) + t
    ensures a == b && s == t
  {
    assert Hole(a) + s == [OPEN] + a + [CLOSE] + s && Hole(b) + t == [OPEN] + b + [CLOSE] + t;
    FirstCloseAt([OPEN] + a, s);
    FirstCloseAt([OPEN] + b, t);
    var whole := Hole(a) + s;
    assert whole[1..|a| + 1] == a && whole[|a| + 2..] == s;
    assert whole[1..|b| + 1] == b && whole[|b| + 2..] == t;
  }

  lemma HoleThenMore(x: string, after: string, fill: Lookup)
    requires x != "" && x[0] == OPEN && CLOSE in x
    ensures var k := FirstClose(x);
            k > 0 && Replace(x + after, fill) == fill(x[1..k]) + Replace(x[k + 1..] + after, fill)
  {
    HoleParts(x);
    NamesHoldNoClose(x);
    var k := FirstClose(x);
    assert x + after == Hole(x[1..k]) + (x[k + 1..] + after);
    HoleIsFilled(x[1..k], x[k + 1..] + after, fill);
  }

  lemma VersionHoleVanishes(x: string, after: string, context: Lookup)
    requires x != "" && x[0] == OPEN && CLOSE in x && FirstClose(x) > 0 && x[1..FirstClose(x)] == "version"
    requires context("version") == ""
    ensures Render(x + after, context) == Render(x[FirstClose(x) + 1..] + after, context)
  {
    HoleThenMore(x, after, context);
    EmptyLeft(Render(x[FirstClose(x) + 1..] + after, context));
  }

  lemma NothingStartsWithHole(x: string, version: string)
    requires x != "" && Render(x, Again(version)) == ""
    ensures version == "" && x[0] == OPEN && CLOSE in x && FirstClose(x) > 0
    ensures x[1..FirstClose(x)] == "version" && Render(x[FirstClose(x) + 1..], Again(version)) == ""
  {
    if x[0] == OPEN && CLOSE in x {
      NamesHoldNoClose(x);
      var name, rest := x[1..FirstClose(x)], x[FirstClose(x) + 1..];
      assert |Again(version)(name) + Render(rest, Again(version))| == 0;
      assert |Hole(name)| > 0;
    }
  }

  /** Text of which nothing is left when its holes are filled with themselves: version holes, without a version. */
  lemma {:induction false} NothingIsLeft(x: string, version: string, after: string, context: Lookup)
    requires Render(x, Again(version)) == "" && context("version") == version
    ensures Render(x + after, context) == Render(after, context)
    decreases |x|
  {
    if x == "" {
      EmptyLeft(after);
    } else {
      NothingStartsWithHole(x, version);
      VersionHoleVanishes(x, after, context);
      NothingIsLeft(x[FirstClose(x) + 1..], version, after, context);
    }
  }

  lemma VersionIsNoHole(version: string, rest: string, name: string)
    requires IsHarmless(version) && version != "" && CLOSE !in name && name != "version"
    ensures version + rest != Hole(name)
  {
    if version + rest == Hole(name) {
      assert (version + rest)[0] == version[0];
      EmptyLeft(Hole(name));
      HoleInFront("version", rest, name, "");
    }
  }

  lemma HoleComesFromHole(x: string, version: string, name: string)
    requires CLOSE !in name && Render(x, Again(version)) == Hole(name)
    ensures x != "" && x[0] == OPEN && CLOSE in x && FirstClose(x) > 0 && CLOSE !in x[1..FirstClose(x)]
  {
    var made := Render(x, Again(version));
    assert made[0] == OPEN && made[|name| + 1] == CLOSE;
    if CLOSE !in x {
      WithoutCloseNothingHappens(x, Again(version));
      assert false;
    }
    NamesHoldNoClose(x);
  }

  /** The first hole of text that comes to Hole(name): the version's, without a version, or the name's. */
  lemma HoleStartsWithHole(x: string, version: string, name: string)
    requires IsHarmless(version) && CLOSE !in name && name != "version" && Render(x, Again(version)) == Hole(name)
    ensures x != "" && x[0] == OPEN && CLOSE in x && FirstClose(x) > 0
    ensures var first, rest := x[1..FirstClose(x)], Render(x[FirstClose(x) + 1..], Again(version));
            if first == "version" then version == "" && rest == Hole(name) else first == name && rest == ""
  {
    HoleComesFromHole(x, version, name);
    var first, rest := x[1..FirstClose(x)], Render(x[FirstClose(x) + 1..], Again(version));
    assert Again(version)(first) + rest == Hole(name);
    if first != "version" {
      EmptyLeft(Hole(name));
      HoleInFront(first, rest, name, "");
    } else if version != "" {
      VersionIsNoHole(version, rest, name);
    } else {
      EmptyLeft(rest);
    }
  }

  /** Text that comes to the hole of a name is rendered as that hole, whatever follows. */
  lemma {:induction false} HoleIsLeft(x: string, version: string, name: string, after: string, context: Lookup)
    requires IsHarmless(version) && CLOSE !in name && name != "version" && Render(x, Again(version)) == Hole(name)
    requires context("version") == version
    ensures Render(x + after, context) == context(name) + Render(after, context)
    decreases |x|
  {
    HoleStartsWithHole(x, version, name);
    if x[1..FirstClose(x)] == "version" {
      VersionHoleVanishes(x, after, context);
      HoleIsLeft(x[FirstClose(x) + 1..], version, name, after, context);
    } else {
      HoleThenMore(x, after, context);
      NothingIsLeft(x[FirstClose(x) + 1..], version, after, context);
    }
  }

  // ---- when early and late agree ----

  /** What stands for one hole early comes to what the context gives for it. */
  lemma EarlyHole(inherited: Lookup, version: string, name: string, after: string, context: Lookup)
    requires IsHarmless(version) && CLOSE !in name && IsLeftAlone(inherited, version, name)
    requires context("version") == version
    ensures Render(Early(With(inherited, "version", version))(name) + after, context) ==
            context(name) + Render(after, context)
  {
    var value := With(inherited, "version", version)(name);
    if value == "" || value == Hole(name) {
      HoleIsFilled(name, after, context);
    } else if name == "version" {
      ValueIsKept(version, after, context);
    } else {
      HoleIsLeft(value, version, name, after, context);
    }
  }

  lemma {:induction false} StagesAgree(inherited: Lookup, version: string, template: string, context: Lookup)
    requires IsHarmless(version) && HolesAreOwn(inherited, version, template) && context("version") == version
    ensures Render(Construct(With(inherited, "version", version), template), context) == Render(template, context)
    decreases |template|
  {
    var values := With(inherited, "version", version);
    if template == "" {
    } else if template[0] == OPEN && CLOSE in template {
      var k := FirstClose(template);
      NamesHoldNoClose(template);
      StagesAgree(inherited, version, template[k + 1..], context);
      EarlyHole(inherited, version, template[1..k], Construct(values, template[k + 1..]), context);
    } else {
      StagesAgree(inherited, version, template[1..], context);
      LiteralPasses(values, context, template);
    }
  }

  /** A hole at the start is the version's, or is filled with at least n characters. */
  lemma FirstHoleFilled(s: string, context: Lookup, n: nat)
    requires s != "" && s[0] == OPEN && CLOSE in s
    requires forall name :: name != "version" ==> |context(name)| >= n
    ensures
      || |Replace(s, context)| >= n
      || (VERSION_HOLE <= s && Replace(s, context) == context("version") + Replace(s[|VERSION_HOLE|..], context))
  {
    HoleParts(s);
    var name := s[1..FirstClose(s)];
    if name == "version" {
      assert s == VERSION_HOLE + s[FirstClose(s) + 1..];
    }
  }

  /**
   Where every other name is given at least n characters, filling the holes of s with the version
   gives at least n characters, or changes the length unless the version is as long as its hole.
   */
  lemma {:induction false} FilledLength(s: string, context: Lookup, n: nat)
    requires forall name :: name != "version" ==> |context(name)| >= n
    ensures var filled, version := Replace(s, context), context("version");
            if !OpensHole(s, "") then filled == s
            else
              |filled| < n ==>
                && |s| >= |VERSION_HOLE|
                && (|version| < |VERSION_HOLE| ==> |filled| < |s|)
                && (|version| > |VERSION_HOLE| ==> |filled| > |s|)
    decreases |s|
  {
    if !OpensHole(s, "") {
      ValueIsKept(s, "", context);
      assert s + "" == s;
    } else {
      assert s + "" == s;
      OpensHoleStep(s, "");
      if s[0] == OPEN && CLOSE in s {
        FirstHoleFilled(s, context, n);
        if VERSION_HOLE <= s {
          FilledLength(s[|VERSION_HOLE|..], context, n);
        }
      } else {
        FilledLength(s[1..], context, n);
        assert Replace(s, context) == [s[0]] + Replace(s[1..], context);
      }
    }
  }

  /** The base URI that tells: the hole of the version, and a closing brace. */
  const TELLING := VERSION_HOLE + [CLOSE]

  lemma TellingFilled(fill: Lookup)
    ensures Replace(TELLING, fill) == fill("version") + [CLOSE]
  {
    HoleIsFilled("version", [CLOSE], fill);
    assert Replace([CLOSE], fill) == [CLOSE] + Replace([CLOSE][1..], fill);
  }

  function Constant(value: string): Lookup {
    name => value
  }

  /** Nine characters with a hole in them: the hole is all of them, or not the version's. */
  lemma NineWithHole(t: string, context: Lookup, n: nat)
    requires |t| == |VERSION_HOLE| && t[|t| - 1] == CLOSE && OPEN in t
    requires forall name :: name != "version" ==> |context(name)| >= n
    ensures |Replace(t, context)| >= n || (t[0] == OPEN && Replace(t, context) == context("version"))
  {
    if t[0] == OPEN {
      FirstHoleFilled(t, context, n);
    } else {
      var rest := t[1..];
      assert rest[|rest| - 1] == CLOSE;
      var i :| 0 <= i < |rest| && rest[i] == OPEN;
      assert rest[i..][|rest| - 1 - i] == CLOSE;
      FilledLength(rest, context, n);
    }
  }

  /** A version as long as its hole, but different from it, is not put back by filling it in again. */
  lemma NineCharacters(version: string, context: Lookup, n: nat)
    requires |version| == |VERSION_HOLE| && version != VERSION_HOLE && OPEN in version && n == |version| + 2
    requires context("version") == version && (forall name :: name != "version" ==> |context(name)| >= n)
    ensures Replace(version + [CLOSE], context) != version + [CLOSE]
  {
    var s := version + [CLOSE];
    assert s[|version|] == CLOSE;
    if s[0] == OPEN {
      FirstHoleFilled(s, context, n);
      assert s[..|version|] == version;
    } else {
      assert Replace(s, context) == [s[0]] + Replace(s[1..], context);
      assert s[1..][|version| - 1] == CLOSE;
      NineWithHole(s[1..], context, n);
    }
  }

  lemma TellingAsksForTheVersion(inherited: Lookup, version: string)
    ensures StripSlashes(TELLING) == TELLING && HolesAreOwn(inherited, version, TELLING)
  {
    FirstCloseAt([OPEN] + "version", [CLOSE]);
    assert TELLING == [OPEN] + "version" + [CLOSE] + [CLOSE];
    var k := FirstClose(TELLING);
    assert TELLING[1..k] == "version" && TELLING[k + 1..] == [CLOSE] && [CLOSE][1..] == "";
    assert HolesAreOwn(inherited, version, [CLOSE]);
  }

  /** Any other version with an opening brace fails on a base URI that asks for nothing but the version. */
  lemma VersionWithBraceDisagrees(inherited: Lookup, version: string)
    requires OPEN in version && version != VERSION_HOLE
    ensures HolesAreOwn(inherited, version, StripSlashes(TELLING))
    ensures exists parameters :: !Agree(inherited, TELLING, version, parameters)
  {
    var n := |version| + 2;
    var long := Constant(seq(n, i => CLOSE));
    var values, context := With(inherited, "version", version), With(long, "version", version);
    var s := version + [CLOSE];
    TellingAsksForTheVersion(inherited, version);
    TellingFilled(Early(values));
    TellingFilled(context);
    assert GetBaseUri(inherited, TELLING, version, long) == Render(s, context);
    assert LateVersion(TELLING, version, long) == s;
    HoleBeforeClose(version);
    FilledLength(s, context, n);
    if |version| == |VERSION_HOLE| {
      NineCharacters(version, context, n);
    }
    assert !Agree(inherited, TELLING, version, long);
  }

  lemma HoleBeforeClose(version: string)
    requires OPEN in version
    ensures OpensHole(version + [CLOSE], "")
  {
    var s := version + [CLOSE];
    var i :| 0 <= i < |version| && version[i] == OPEN;
    assert s[i] == OPEN && s[i..][|s| - 1 - i] == CLOSE;
  }

  lemma OneHole(name: string, fill: Lookup)
    requires CLOSE !in name
    ensures Render(Hole(name), fill) == fill(name)
    ensures StripSlashes(Hole(name)) == Hole(name)
  {
    HoleIsFilled(name, "", fill);
    assert Hole(name) + "" == Hole(name);
  }

  /** A name that is answered otherwise fails on the base URI that is its hole. */
  lemma InheritedNameDisagrees(inherited: Lookup, version: string, name: string)
    requires CLOSE !in name && !IsLeftAlone(inherited, version, name)
    ensures exists parameters :: !Agree(inherited, Hole(name), version, parameters)
  {
    OneHole(name, Early(With(inherited, "version", version)));
    OneHole(name, Again(version));
    var holes: Lookup := n => Hole(n);
    assert !Agree(inherited, Hole(name), version, holes);
  }

  /**
   For base URIs that ask for no inherited name, putting the version in early never makes a
   difference if and only if the version holds no opening brace, or is the very hole it is put into.
   */
  lemma EarlyVersionAgreesIff(inherited: Lookup, version: string)
    ensures (forall baseUri, parameters :: HolesAreOwn(inherited, version, StripSlashes(baseUri)) ==>
               Agree(inherited, baseUri, version, parameters))
            <==> (OPEN !in version || version == "{version}")
  {
    assert VERSION_HOLE == "{version}";
    if IsHarmless(version) {
      forall baseUri, parameters | HolesAreOwn(inherited, version, StripSlashes(baseUri))
        ensures Agree(inherited, baseUri, version, parameters)
      {
        StagesAgree(inherited, version, StripSlashes(baseUri), With(parameters, "version", version));
      }
    } else {
      VersionWithBraceDisagrees(inherited, version);
    }
  }

  ghost predicate LeavesNamesAlone(inherited: Lookup, version: string) {
    forall name :: CLOSE !in name ==> IsLeftAlone(inherited, version, name)
  }

  /**
   For all base URIs it makes no difference if and only if, besides, the early object answers no
   name that a hole can have but the version, or only with what comes to the name's hole again.
   */
  lemma AlwaysAgreesIff(inherited: Lookup, version: string)
    ensures (forall baseUri, parameters :: Agree(inherited, baseUri, version, parameters))
            <==> (OPEN !in version || version == "{version}") && LeavesNamesAlone(inherited, version)
  {
    EarlyVersionAgreesIff(inherited, version);
    if IsHarmless(version) && LeavesNamesAlone(inherited, version) {
      forall baseUri ensures HolesAreOwn(inherited, version, StripSlashes(baseUri)) {
        OwnWhenLeftAlone(inherited, version, StripSlashes(baseUri));
      }
    } else if IsHarmless(version) {
      var name :| CLOSE !in name && !IsLeftAlone(inherited, version, name);
      InheritedNameDisagrees(inherited, version, name);
    } else {
      VersionWithBraceDisagrees(inherited, version);
    }
  }

  lemma {:induction false} OwnWhenLeftAlone(inherited: Lookup, version: string, template: string)
    requires LeavesNamesAlone(inherited, version)
    ensures HolesAreOwn(inherited, version, template)
    decreases |template|
  {
    if template != "" {
      if template[0] == OPEN && CLOSE in template {
        NamesHoldNoClose(template);
        OwnWhenLeftAlone(inherited, version, template[FirstClose(template) + 1..]);
      } else {
        OwnWhenLeftAlone(inherited, version, template[1..]);
      }
    }
  }

  // ---- {constructor} ----

  const SIGNATURE := "function Object() "

  /** The text of the function that every object inherits as its constructor. */
  const NATIVE := SIGNATURE + Hole(" [native code] ")

  lemma LastHoleIsLost(text: string, name: string, context: Lookup)
    requires OPEN !in text && CLOSE !in name && context(name) == ""
    ensures Render(text + Hole(name), context) == text
  {
    ValueIsKept(text, Hole(name), context);
    OneHole(name, context);
    assert text + "" == text;
  }

  /**
   A hole called constructor, when the caller gives it no value: late it becomes the text of the
   inherited function; early that text goes in first and loses its own hole.
   */
  lemma ConstructorDisagrees(inherited: Lookup, version: string, parameters: Lookup)
    requires inherited("constructor") == NATIVE && parameters("constructor") == NATIVE
    requires parameters(" [native code] ") == ""
    ensures LateVersion(Hole("constructor"), version, parameters) == NATIVE
    ensures GetBaseUri(inherited, Hole("constructor"), version, parameters) == SIGNATURE
    ensures !Agree(inherited, Hole("constructor"), version, parameters)
  {
    OneHole("constructor", With(parameters, "version", version));
    OneHole("constructor", Early(With(inherited, "version", version)));
    LastHoleIsLost(SIGNATURE, " [native code] ", With(parameters, "version", version));
  }
}
