/** RAML type inheritance: how mergeType of api-console.js collects the properties of a type. */
module RamlTypes {
  import opened Wrappers
  import opened Sequences
  import opened Walks

  /** A property definition, which the merging does not look into. */
  type Property(==, !new)

  type Properties = map<string, Property>

  /** A declared type: its own properties, if it lists any, and its supertypes. */
  datatype Decl = Decl(properties: Option<Properties>, supertypes: seq<string>)

  /** The declarations, as RAML delivers them: a list of objects from names to types. */
  type Types = seq<map<string, Decl>>

  function RemoveFirst(s: string, piece: string): string {
    if |s| < |piece| || s == "" then s
    else if s[..|piece|] == piece then s[|piece|..]
    else [s[0]] + RemoveFirst(s[1..], piece)
  }

  predicate IsSpace(c: char) {
    var n := c as int;
    || 0x9 <= n <= 0xD || n == 0x20 || n == 0xA0 || n == 0x1680 || 0x2000 <= n <= 0x200A
    || n == 0x2028 || n == 0x2029 || n == 0x202F || n == 0x205F || n == 0x3000 || n == 0xFEFF
  }

  function Trim(s: string): string {
    if s == "" then s
    else if IsSpace(s[0]) then Trim(s[1..])
    else if IsSpace(s[|s| - 1]) then Trim(s[..|s| - 1])
    else s
  }

  function CleanupTypeName(name: string): string {
    Trim(RemoveFirst(RemoveFirst(RemoveFirst(name, "[]"), "("), ")"))
  }

  lemma OccursInRest(s: string, piece: string, j: nat)
    requires s != ""
    ensures OccursAt(piece, s[1..], j) <==> OccursAt(piece, s, j + 1)
  {
    assert j + 1 + |piece| <= |s| ==> s[1..][j..j + |piece|] == s[j + 1..j + 1 + |piece|];
  }

  lemma CutInRest(s: string, i: nat, n: nat)
    requires 0 < i && i + n <= |s|
    ensures [s[0]] + (s[1..][..i - 1] + s[1..][i - 1 + n..]) == s[..i] + s[i + n..]
  {
    assert s[1..][i - 1 + n..] == s[i + n..];
    assert [s[0]] + s[1..][..i - 1] == s[..i];
    Associate([s[0]], s[1..][..i - 1], s[i + n..]);
  }

  /** The first occurrence goes, if there is one. */
  lemma {:induction false} RemoveFirstMeaning(s: string, piece: string, i: nat)
    requires piece != "" && forall j :: 0 <= j < i ==> !OccursAt(piece, s, j)
    ensures OccursAt(piece, s, i) ==> RemoveFirst(s, piece) == s[..i] + s[i + |piece|..]
    ensures i >= |s| ==> RemoveFirst(s, piece) == s
  {
    if |s| >= |piece| && i > 0 {
      assert !OccursAt(piece, s, 0);
      forall j | 0 <= j < i - 1 ensures !OccursAt(piece, s[1..], j) {
        OccursInRest(s, piece, j);
      }
      OccursInRest(s, piece, i - 1);
      RemoveFirstMeaning(s[1..], piece, i - 1);
      if OccursAt(piece, s, i) {
        CutInRest(s, i, |piece|);
      }
    }
  }

  lemma RemoveNothing(s: string, piece: string)
    requires piece != "" && piece[0] !in s
    ensures RemoveFirst(s, piece) == s
  {
    forall j | 0 <= j < |s| ensures !OccursAt(piece, s, j) {
      OccurrenceStarts(piece, s, j);
    }
    RemoveFirstMeaning(s, piece, |s|);
  }

  lemma RemovePiece(before: string, piece: string, after: string)
    requires piece != "" && piece[0] !in before
    ensures RemoveFirst(before + piece + after, piece) == before + after
  {
    var s := before + piece + after;
    forall j | 0 <= j < |before| ensures !OccursAt(piece, s, j) {
      OccurrenceStarts(piece, s, j);
      assert s[j] == before[j];
    }
    assert s[|before|..|before| + |piece|] == piece;
    assert s[..|before|] == before && s[|before| + |piece|..] == after;
    RemoveFirstMeaning(s, piece, |before|);
  }

  /** White space, the trimmed text, white space. */
  ghost predicate IsTrimCut(s: string, left: string, t: string, right: string) {
    && s == left + t + right
    && (forall i :: 0 <= i < |left| ==> IsSpace(left[i])) && (forall i :: 0 <= i < |right| ==> IsSpace(right[i]))
    && (t == "" || (!IsSpace(t[0]) && !IsSpace(t[|t| - 1])))
  }

  lemma SpaceInFront(s: string, left: string, t: string, right: string)
    requires s != "" && IsSpace(s[0]) && IsTrimCut(s[1..], left, t, right)
    ensures IsTrimCut(s, [s[0]] + left, t, right)
  {
    Regroup([s[0]], left, t, right);
    assert s == [s[0]] + s[1..];
  }

  lemma SpaceBehind(s: string, left: string, t: string, right: string)
    requires s != "" && IsSpace(s[|s| - 1]) && IsTrimCut(s[..|s| - 1], left, t, right)
    ensures IsTrimCut(s, left, t, right + [s[|s| - 1]])
  {
    SplitLast(s);
    Associate(left + t, right, [s[|s| - 1]]);
  }

  /** White space goes at both ends, and only there. */
  lemma {:induction false} TrimMeaning(s: string) returns (left: string, right: string)
    ensures IsTrimCut(s, left, Trim(s), right)
  {
    if s != "" && IsSpace(s[0]) {
      left, right := TrimMeaning(s[1..]);
      SpaceInFront(s, left, Trim(s), right);
      left := [s[0]] + left;
    } else if s != "" && IsSpace(s[|s| - 1]) {
      left, right := TrimMeaning(s[..|s| - 1]);
      SpaceBehind(s, left, Trim(s), right);
      right := right + [s[|s| - 1]];
    } else {
      left, right := "", "";
    }
  }

  /** A name on its own, without brackets and without white space around it. */
  predicate IsPlainName(name: string) {
    && name != "" && !IsSpace(name[0]) && !IsSpace(name[|name| - 1])
    && '[' !in name && '(' !in name && ')' !in name
  }

  lemma NameOfArray(name: string)
    requires '[' !in name
    ensures CleanupTypeName(name + "[]") == CleanupTypeName(name)
  {
    RemoveNothing(name, "[]");
    RemovePiece(name, "[]", "");
    assert name + "[]" + "" == name + "[]" && name + "" == name;
  }

  lemma NameInParentheses(name: string)
    requires '[' !in name && '(' !in name && ')' !in name
    ensures CleanupTypeName("(" + name + ")") == CleanupTypeName(name)
  {
    RemoveNothing(name, "[]");
    RemoveNothing(name, "(");
    RemoveNothing(name, ")");
    RemoveNothing("(" + name + ")", "[]");
    RemovePiece("", "(", name + ")");
    assert "" + "(" + (name + ")") == "(" + name + ")" && "" + (name + ")") == name + ")";
    RemovePiece(name, ")", "");
    assert name + ")" + "" == name + ")" && name + "" == name;
  }

  lemma NameInSpaces(name: string)
    requires IsPlainName(name)
    ensures Trim(name) == Trim(name + " ") == Trim(" " + name + " ") == name
  {
    assert (name + " ")[0] == name[0] && (name + " ")[..|name|] == name;
    assert (" " + name + " ")[1..] == name + " ";
  }

  /** The names of an array of a type, of a type in parentheses and of an array of that are the type's. */
  lemma CleanedForms(name: string)
    requires IsPlainName(name)
    ensures CleanupTypeName(name) == name && CleanupTypeName(name + "[]") == name
    ensures CleanupTypeName("(" + name + ")") == name && CleanupTypeName("(" + name + ")" + "[]") == name
    ensures CleanupTypeName(" " + name + " ") == name
  {
    RemoveNothing(name, "[]");
    RemoveNothing(name, "(");
    RemoveNothing(name, ")");
    NameInSpaces(name);
    NameOfArray(name);
    NameInParentheses(name);
    NameOfArray("(" + name + ")");
    RemoveNothing(" " + name + " ", "[]");
    RemoveNothing(" " + name + " ", "(");
    RemoveNothing(" " + name + " ", ")");
  }

  const NATIVE_TYPES := {
    "object", "string", "number", "integer", "boolean", "date-only", "time-only",
    "datetime-only", "datetime", "file", "array"}

  predicate IsNativeType(name: string) {
    CleanupTypeName(name) in NATIVE_TYPES
  }

  /** A plain name is native if it is one of the eleven, and so are its array and what stands in parentheses. */
  lemma NativeNames(name: string)
    requires IsPlainName(name)
    ensures var natives := ["array", "boolean", "date-only", "datetime", "datetime-only", "file",
                            "integer", "number", "object", "string", "time-only"];
            (IsNativeType(name) <==> name in natives) && IsNativeType(name) == IsNativeType("(" + name + ")" + "[]")
  {
    CleanedForms(name);
  }

  /** The names that every object inherits from Object.prototype (ECMA-262, section 20.1.3 and annex B.2.2). */
  const INHERITED := {
    "constructor", "hasOwnProperty", "isPrototypeOf", "propertyIsEnumerable", "toLocaleString", "toString", "valueOf",
    "__proto__", "__defineGetter__", "__defineSetter__", "__lookupGetter__", "__lookupSetter__"}

  /** What an inherited name finds: something with neither properties nor supertypes. */
  const NO_DECL := Decl(None, [])

  /** find(name, collection), whose lookup also finds what the objects inherit. */
  function Find(name: string, types: Types): Option<Decl> {
    if types == [] then None
    else if name in types[0] then Some(types[0][name])
    else if name in INHERITED then Some(NO_DECL)
    else Find(name, types[1..])
  }

  /** The first object that has the name gives its declaration, unless the first of all inherits the name. */
  lemma {:induction false} FindMeaning(name: string, types: Types, i: nat)
    requires i < |types| && name in types[i] && forall j :: 0 <= j < i ==> name !in types[j]
    ensures Find(name, types) == Some(if i == 0 || name !in INHERITED then types[i][name] else Decl(None, []))
  {
    if i > 0 && name !in INHERITED {
      assert types[1..][i - 1] == types[i];
      FindMeaning(name, types[1..], i - 1);
    }
  }

  lemma {:induction false} FindsNothing(name: string, types: Types)
    requires forall j :: 0 <= j < |types| ==> name !in types[j]
    ensures Find(name, types) == if types != [] && name in INHERITED then Some(Decl(None, [])) else None
  {
    if types != [] && name !in INHERITED {
      FindsNothing(name, types[1..]);
    }
  }

  /** The declaration that a supertype name leads on to, None for a native or unknown type. */
  function FindSuper(name: string, types: Types): Option<Decl> {
    if IsNativeType(name) then None else Find(CleanupTypeName(name), types)
  }

  /** angular.extend({}, below, above): what is above wins. */
  function Extend(below: Option<Properties>, above: Option<Properties>): Properties {
    (if below.Some? then below.value else map[]) + (if above.Some? then above.value else map[])
  }

  /** Endless is a recursion without end; Broken is a TypeError on something found that has no supertype. */
  datatype Merged = Merged(properties: Option<Properties>) | Endless | Broken

  /** The names that Find finds. */
  function Declared(types: Types): set<string> {
    if types == [] then {} else types[0].Keys + INHERITED + Declared(types[1..])
  }

  lemma {:induction false} FoundIsDeclared(name: string, types: Types)
    ensures Find(name, types).Some? <==> name in Declared(types)
  {
    if types != [] {
      FoundIsDeclared(name, types[1..]);
    }
  }

  /**
   getSuperTypesProperties. The names passed so far are remembered only to tell an endless
   recursion from the others: the calls depend on nothing but the name.
   */
  function GetSuperTypesProperties(properties: Option<Properties>, name: string, types: Types, passed: set<string>)
    : Merged
    decreases Declared(types) - passed
  {
    match FindSuper(name, types)
    case None => Merged(properties)
    case Some(decl) =>
      FoundIsDeclared(CleanupTypeName(name), types);
      if CleanupTypeName(name) in passed then Endless
      else if decl.supertypes == [] then Broken
      else GetSuperTypesProperties(Some(Extend(decl.properties, properties)), decl.supertypes[0], types,
                                   passed + {CleanupTypeName(name)})
  }

  /** What a type says of its supertypes: nothing, one name, or a list. */
  datatype TypeRef = Nothing | Single(name: string) | Several(names: seq<string>)

  /** The forEach over the supertypes. */
  method AddSuperTypes(own: Option<Properties>, names: seq<string>, types: Types) returns (result: Merged)
    ensures result == MergeSupers(own, names, types)
  {
    var properties := own;
    var i := 0;
    while i < |names|
      invariant 0 <= i <= |names|
      invariant MergeSupers(own, names, types) == MergeSupers(properties, names[i..], types)
    {
      assert names[i..][0] == names[i] && names[i..][1..] == names[i + 1..];
      var merged := GetSuperTypesProperties(properties, names[i], types, {});
      if !merged.Merged? {
        return merged;
      }
      properties := merged.properties;
      i := i + 1;
    }
    return Merged(properties);
  }

  function MergeSupers(properties: Option<Properties>, names: seq<string>, types: Types): Merged
    decreases |names|
  {
    if names == [] then Merged(properties)
    else
      match GetSuperTypesProperties(properties, names[0], types, {})
      case Merged(more) => MergeSupers(more, names[1..], types)
      case other => other
  }

  // ---- which definition of a property wins ----

  /** The declarations met from a name on, each followed by the first of its supertypes. */
  datatype Chain = Ends(decls: seq<Decl>) | NeverEnds | Breaks

  function ChainFrom(name: string, types: Types, passed: set<string>): Chain
    decreases Declared(types) - passed
  {
    match FindSuper(name, types)
    case None => Ends([])
    case Some(decl) =>
      FoundIsDeclared(CleanupTypeName(name), types);
      if CleanupTypeName(name) in passed then NeverEnds
      else if decl.supertypes == [] then Breaks
      else
        match ChainFrom(decl.supertypes[0], types, passed + {CleanupTypeName(name)})
        case Ends(decls) => Ends([decl] + decls)
        case other => other
  }

  function Get(properties: Option<Properties>, key: string): Option<Property> {
    if properties.Some? && key in properties.value then Some(properties.value[key]) else None
  }

  /** The first declaration with the property gives its definition. */
  function FirstDefinition(decls: seq<Decl>, key: string): Option<Property> {
    if decls == [] then None
    else if Get(decls[0].properties, key).Some? then Get(decls[0].properties, key)
    else FirstDefinition(decls[1..], key)
  }

  function OrElse(a: Option<Property>, b: Option<Property>): Option<Property> {
    if a.Some? then a else b
  }

  lemma {:induction false} SuperTypesAlongTheChain(properties: Option<Properties>, name: string, types: Types,
      passed: set<string>, key: string)
    ensures match (GetSuperTypesProperties(properties, name, types, passed), ChainFrom(name, types, passed))
            case (Merged(all), Ends(decls)) =>
              Get(all, key) == OrElse(Get(properties, key), FirstDefinition(decls, key))
            case (Endless, NeverEnds) => true
            case (Broken, Breaks) => true
            case _ => false
    decreases Declared(types) - passed
  {
    var found := FindSuper(name, types);
    if found.Some? {
      FoundIsDeclared(CleanupTypeName(name), types);
      var decl := found.value;
      if CleanupTypeName(name) !in passed && decl.supertypes != [] {
        var more := Some(Extend(decl.properties, properties));
        SuperTypesAlongTheChain(more, decl.supertypes[0], types, passed + {CleanupTypeName(name)}, key);
      }
    }
  }

  ghost predicate AllEnd(names: seq<string>, types: Types) {
    forall i :: 0 <= i < |names| ==> ChainFrom(names[i], types, {}).Ends?
  }

  /** All the declarations in the order in which they are asked for a property. */
  function Lineage(names: seq<string>, types: Types): seq<Decl>
    requires AllEnd(names, types)
  {
    if names == [] then [] else ChainFrom(names[0], types, {}).decls + Lineage(names[1..], types)
  }

  lemma {:induction false} FirstDefinitionConcat(a: seq<Decl>, b: seq<Decl>, key: string)
    ensures FirstDefinition(a + b, key) == OrElse(FirstDefinition(a, key), FirstDefinition(b, key))
  {
    if a == [] {
      assert a + b == b;
    } else {
      assert (a + b)[1..] == a[1..] + b;
      FirstDefinitionConcat(a[1..], b, key);
    }
  }

  /**
   A merged type has a property exactly when the type itself or a declaration in its lineage has
   it, and then it is the type's own or else the first one in the lineage. There is no result
   exactly when some chain does not end.
   */
  lemma {:induction false} MergedPropertiesAreInherited(own: Option<Properties>, names: seq<string>, types: Types,
      key: string)
    ensures MergeSupers(own, names, types).Merged? <==> AllEnd(names, types)
    ensures AllEnd(names, types) ==>
              Get(MergeSupers(own, names, types).properties, key) ==
              OrElse(Get(own, key), FirstDefinition(Lineage(names, types), key))
    decreases |names|
  {
    if names != [] {
      SuperTypesAlongTheChain(own, names[0], types, {}, key);
      assert AllEnd(names, types) <==> ChainFrom(names[0], types, {}).Ends? && AllEnd(names[1..], types) by {
        assert forall i :: 0 <= i < |names[1..]| ==> names[1..][i] == names[i + 1];
        assert forall i :: 1 <= i < |names| ==> names[i] == names[1..][i - 1];
      }
      var merged := GetSuperTypesProperties(own, names[0], types, {});
      if merged.Merged? {
        MergedPropertiesAreInherited(merged.properties, names[1..], types, key);
        if AllEnd(names, types) {
          FirstDefinitionConcat(ChainFrom(names[0], types, {}).decls, Lineage(names[1..], types), key);
        }
      }
    }
  }

  /**
   The properties mergeType gives a type. A list of supertypes that starts with a native type is
   not followed. Any other list gives a result exactly when all its chains end, and then every
   property is the type's own or else the first in the lineage.
   */
  method MergeType(own: Option<Properties>, ref: TypeRef, types: Types) returns (result: Merged)
    ensures ref.Nothing? || ref == Several([]) || (ref.Single? && !IsNativeType(ref.name)) ==> result == Broken
    ensures (ref.Single? && IsNativeType(ref.name)) || (ref.Several? && ref.names != [] && IsNativeType(ref.names[0]))
            ==> result == Merged(own)
    ensures ref.Several? && ref.names != [] && !IsNativeType(ref.names[0]) ==>
              && (result.Merged? <==> AllEnd(ref.names, types))
              && (AllEnd(ref.names, types) ==>
                    forall key :: Get(result.properties, key) ==
                                  OrElse(Get(own, key), FirstDefinition(Lineage(ref.names, types), key)))
  {
    if ref.Nothing? || (ref.Several? && ref.names == []) {
      return Broken;
    }
    var currentType := if ref.Several? then ref.names[0] else ref.name;
    result := Merged(own);
    if !IsNativeType(currentType) {
      if ref.Single? {
        return Broken;
      }
      result := AddSuperTypes(own, ref.names, types);
      forall key ensures AllEnd(ref.names, types) ==>
        result.Merged? && Get(result.properties, key) ==
                          OrElse(Get(own, key), FirstDefinition(Lineage(ref.names, types), key))
      {
        MergedPropertiesAreInherited(own, ref.names, types, key);
      }
      MergedPropertiesAreInherited(own, ref.names, types, "");
    }
  }

  /** Three types: a with the supertypes b and c, each of which declares one property. */
  function Family(a: string, b: string, c: string, k: string, l: string, p: Property, q: Property): Types {
    [map[a := Decl(None, [b, c]), b := Decl(Some(map[k := p]), ["object"]), c := Decl(Some(map[l := q]), ["object"])]]
  }

  lemma FamilyMembers(a: string, b: string, c: string, k: string, l: string, p: Property, q: Property)
    requires a != b && b != c && a != c
    ensures var types := Family(a, b, c, k, l, p, q);
            && |types| == 1 && a in types[0] && types[0][a] == Decl(None, [b, c])
            && b in types[0] && types[0][b] == Decl(Some(map[k := p]), ["object"])
  {}

  lemma ObjectIsNative()
    ensures IsNativeType("object")
  {
    CleanedForms("object");
  }

  lemma FamilyDeclares(a: string, b: string, c: string, k: string, l: string, p: Property, q: Property)
    requires IsPlainName(a) && IsPlainName(b) && a != b && b != c && a != c
    requires a !in NATIVE_TYPES && b !in NATIVE_TYPES
    ensures var types := Family(a, b, c, k, l, p, q);
            && CleanupTypeName(a) == a && FindSuper(a, types) == Some(Decl(None, [b, c]))
            && CleanupTypeName(b) == b && FindSuper(b, types) == Some(Decl(Some(map[k := p]), ["object"]))
            && FindSuper("object", types) == None
  {
    var types := Family(a, b, c, k, l, p, q);
    FamilyMembers(a, b, c, k, l, p, q);
    CleanedForms(a);
    CleanedForms(b);
    ObjectIsNative();
    FindMeaning(a, types, 0);
    FindMeaning(b, types, 0);
  }

  /** Of the supertypes of a supertype only the first one is followed. */
  lemma OnlyTheFirstSupertypeIsFollowed(a: string, b: string, c: string, k: string, l: string, p: Property, q: Property)
    requires IsPlainName(a) && IsPlainName(b) && a != b && b != c && a != c
    requires a !in NATIVE_TYPES && b !in NATIVE_TYPES
    ensures GetSuperTypesProperties(None, a, Family(a, b, c, k, l, p, q), {}) == Merged(Some(map[k := p]))
  {
    var types := Family(a, b, c, k, l, p, q);
    FamilyDeclares(a, b, c, k, l, p, q);
    var none: Properties := map[];
    assert Extend(None, None) == none && Extend(Some(map[k := p]), Some(none)) == map[k := p];
    assert GetSuperTypesProperties(Some(map[k := p]), "object", types, {a, b}) == Merged(Some(map[k := p]));
    assert {a} + {b} == {a, b} && {} + {a} == {a};
    assert GetSuperTypesProperties(Some(none), b, types, {a}) == Merged(Some(map[k := p]));
  }

  // ---- acyclic declarations ----

  /** One step along the chain, on cleaned-up names: the first supertype of the declaration found. */
  function NextClean(types: Types): Step {
    name =>
      if name in NATIVE_TYPES then None
      else
        match Find(name, types)
        case None => None
        case Some(decl) => if decl.supertypes == [] then None else Some(CleanupTypeName(decl.supertypes[0]))
  }

  /** The steps can be counted down: no type is, by first supertypes, a supertype of itself. */
  ghost predicate Ranked(types: Types, rank: string -> nat) {
    forall name :: NextClean(types)(name).Some? && NextClean(types)(NextClean(types)(name).value).Some? ==>
      rank(NextClean(types)(name).value) < rank(name)
  }

  lemma NextOf(name: string, types: Types)
    ensures var found, next := FindSuper(name, types), NextClean(types)(CleanupTypeName(name));
            && (next.Some? <==> found.Some? && found.value.supertypes != [])
            && (next.Some? ==> next.value == CleanupTypeName(found.value.supertypes[0]))
  {}

  /** On acyclic declarations no recursion is endless. */
  lemma {:induction false} RankedEnds(name: string, types: Types, rank: string -> nat, passed: set<string>)
    requires Ranked(types, rank)
    requires forall n :: n in passed ==> NextClean(types)(n).Some?
    requires forall n :: n in passed && NextClean(types)(CleanupTypeName(name)).Some? ==>
               rank(CleanupTypeName(name)) < rank(n)
    ensures ChainFrom(name, types, passed) != NeverEnds
    decreases Declared(types) - passed
  {
    var found, clean := FindSuper(name, types), CleanupTypeName(name);
    NextOf(name, types);
    if found.Some? {
      FoundIsDeclared(clean, types);
      if found.value.supertypes != [] {
        var first := found.value.supertypes[0];
        assert NextClean(types)(clean) == Some(CleanupTypeName(first));
        RankedEnds(first, types, rank, passed + {clean});
      }
    }
  }

  lemma NextCleanIsDeclared(types: Types)
    ensures forall n :: NextClean(types)(n).Some? ==> n in Declared(types)
  {
    forall n | NextClean(types)(n).Some? ensures n in Declared(types) {
      FoundIsDeclared(n, types);
    }
  }

  lemma {:induction false} ChainIsWalk(name: string, types: Types, passed: set<string>)
    requires forall n :: NextClean(types)(n).Some? ==> n in Declared(types)
    requires forall n :: n in passed ==> NextClean(types)(n).Some?
    ensures ChainFrom(name, types, passed) == NeverEnds <==>
            !Stops(NextClean(types), Declared(types), CleanupTypeName(name), passed)
    decreases Declared(types) - passed
  {
    var found, clean := FindSuper(name, types), CleanupTypeName(name);
    if found.Some? {
      FoundIsDeclared(clean, types);
      if clean !in passed && found.value.supertypes != [] {
        ChainIsWalk(found.value.supertypes[0], types, passed + {clean});
      }
    }
  }

  /** getSuperTypesProperties never returns exactly when the walk along the first supertypes never stops. */
  lemma NeverEndsIffWalkGoesOn(name: string, types: Types)
    ensures ChainFrom(name, types, {}) == NeverEnds <==>
            forall k: nat :: Walked(NextClean(types), CleanupTypeName(name), k).Some?
  {
    NextCleanIsDeclared(types);
    ChainIsWalk(name, types, {});
    StopsIffSomeStepIsMissing(NextClean(types), Declared(types), CleanupTypeName(name));
  }
}
