/**
 Path strings: Java's split("/") as PathTrie reads it, and the joining of a path and a name
 that Paths.get does on a Unix file system.
 */
module Paths {
  import opened Wrappers
  import opened Sequences

  type Names = seq<string>

  const SLASH: char := '/'

  function DropTrailingEmpty(parts: seq<string>): (r: seq<string>)
    ensures r <= parts
    ensures r == [] || r[|r| - 1] != ""
  {
    if parts != [] && parts[|parts| - 1] == "" then DropTrailingEmpty(parts[..|parts| - 1])
    else parts
  }

  /** String.split("/"): a string without a slash is returned whole, even when it is empty. */
  function JavaSplit(s: string): seq<string> {
    if SLASH !in s then [s] else DropTrailingEmpty(Split(s, SLASH))
  }

  /** What addPath and deletePath walk along; None stands for IllegalArgumentException. */
  function Components(path: string): (r: Option<Names>)
    ensures r.Some? ==> r.value != [] && r.value[|r.value| - 1] != ""
  {
    var parts := JavaSplit(path);
    if |parts| <= 1 then None else Some(parts[1..])
  }

  /** Where getNode looks: "/" is the root, which no component list names. */
  function Location(path: string): Option<Names> {
    if path == "/" then Some([]) else Components(path)
  }

  function NonEmpty(parts: seq<string>): seq<string> {
    if parts == [] then []
    else if parts[0] == "" then NonEmpty(parts[1..])
    else [parts[0]] + NonEmpty(parts[1..])
  }

  /** A Unix path keeps one slash of each run and no slash at its end, except the root's. */
  function Normalise(s: string): string {
    (if s != "" && s[0] == SLASH then "/" else "") + Join(NonEmpty(Split(s, SLASH)), SLASH)
  }

  /** Paths.get(path, name).toString() */
  function PathsGet(path: string, name: string): string {
    Normalise(if name == "" then path else if path == "" then name else path + "/" + name)
  }

  function Absolute(p: Names): string {
    "/" + Join(p, SLASH)
  }

  ghost predicate SlashFree(p: Names) {
    NoneContains(p, SLASH)
  }

  ghost predicate NoEmptyName(p: Names) {
    forall i :: 0 <= i < |p| ==> p[i] != ""
  }

  /** A list of names that the path syntax can write down. */
  ghost predicate Nameable(p: Names) {
    SlashFree(p) && NoEmptyName(p)
  }

  lemma DropTrailingEmptyNoop(parts: seq<string>)
    requires parts == [] || parts[|parts| - 1] != ""
    ensures DropTrailingEmpty(parts) == parts
  {}

  /** The names a path string yields never contain a slash. */
  lemma ComponentsAreSlashFree(path: string)
    ensures Components(path).Some? ==> SlashFree(Components(path).value)
  {
    SplitHasNoSeparator(path, SLASH);
  }

  ghost predicate AllEmpty(parts: seq<string>) {
    forall i :: 0 <= i < |parts| ==> parts[i] == ""
  }

  lemma {:induction false} DropLeavesFirst(parts: seq<string>)
    requires parts != []
    ensures |DropTrailingEmpty(parts)| <= 1 <==> AllEmpty(parts[1..])
  {
    if |parts| > 1 && parts[|parts| - 1] == "" {
      var init := parts[..|parts| - 1];
      DropLeavesFirst(init);
      assert parts[1..] == init[1..] + [""];
      assert forall i :: 0 <= i < |init[1..]| ==> parts[1..][i] == init[1..][i];
    } else if |parts| > 1 {
      assert parts[1..][|parts| - 2] == parts[|parts| - 1];
    }
  }

  lemma {:induction false} OnlySlashesSplitIntoNothing(s: string)
    ensures AllEmpty(Split(s, SLASH)) <==> forall j :: 0 <= j < |s| ==> s[j] == SLASH
  {
    if s != "" {
      OnlySlashesSplitIntoNothing(s[1..]);
      var rest := Split(s[1..], SLASH);
      if s[0] == SLASH {
        assert Split(s, SLASH)[1..] == rest;
        assert forall i :: 0 <= i < |rest| ==> Split(s, SLASH)[i + 1] == rest[i];
        assert forall j :: 1 <= j < |s| ==> s[j] == s[1..][j - 1];
        assert forall j :: 0 <= j < |s[1..]| ==> s[1..][j] == s[j + 1];
      } else {
        assert Split(s, SLASH)[0] != "";
      }
    }
  }

  lemma {:induction false} PartsAfterFirst(s: string)
    ensures AllEmpty(Split(s, SLASH)[1..]) <==> forall i, j :: 0 <= i < j < |s| && s[i] == SLASH ==> s[j] == SLASH
  {
    if s != "" {
      var rest := s[1..];
      assert forall j :: 0 <= j < |rest| ==> rest[j] == s[j + 1];
      assert forall j :: 1 <= j < |s| ==> s[j] == rest[j - 1];
      if s[0] == SLASH {
        assert Split(s, SLASH)[1..] == Split(rest, SLASH);
        OnlySlashesSplitIntoNothing(rest);
      } else {
        assert Split(s, SLASH)[1..] == Split(rest, SLASH)[1..];
        PartsAfterFirst(rest);
      }
    }
  }

  function Empties(k: nat): seq<string> {
    seq(k, i => "")
  }

  function Slashes(k: nat): string {
    seq(k, i => '/')
  }

  lemma {:induction false} TrailingEmpties(parts: seq<string>)
    ensures var kept := DropTrailingEmpty(parts); parts == kept + Empties(|parts| - |kept|)
  {
    if parts != [] && parts[|parts| - 1] == "" {
      TrailingEmpties(parts[..|parts| - 1]);
    }
  }

  lemma OneMoreEmpty(kept: seq<string>, k: nat)
    requires k > 0
    ensures kept + Empties(k) == kept + Empties(k - 1) + [""]
  {}

  lemma DropsOneEmpty(parts: seq<string>)
    ensures DropTrailingEmpty(parts + [""]) == DropTrailingEmpty(parts)
  {
    assert (parts + [""])[..|parts|] == parts;
  }

  lemma {:induction false} DropsEmpties(kept: seq<string>, k: nat)
    requires kept != [] && kept[|kept| - 1] != ""
    ensures DropTrailingEmpty(kept + Empties(k)) == kept
  {
    if k == 0 {
      EmptyLeft(kept);
    } else {
      OneMoreEmpty(kept, k);
      DropsOneEmpty(kept + Empties(k - 1));
      DropsEmpties(kept, k - 1);
    }
  }

  /** Parts that are empty at the end are slashes at the end. */
  lemma {:induction false} SplitWithSlashes(s: string, k: nat)
    ensures Split(s + Slashes(k), SLASH) == Split(s, SLASH) + Empties(k)
  {
    if k == 0 {
      EmptyLeft(s);
      EmptyLeft(Split(s, SLASH));
    } else {
      SplitWithSlashes(s, k - 1);
      var t := s + Slashes(k - 1);
      assert s + Slashes(k) == t + [SLASH] + [];
      SplitOfConcat(t, SLASH, []);
      assert Split([], SLASH) == [""];
      assert Split(s, SLASH) + Empties(k - 1) + [""] == Split(s, SLASH) + Empties(k);
    }
  }

  /** A path as text: something before the first slash, the names between slashes, slashes at the end. */
  function PathText(first: string, names: Names, k: nat): string {
    first + "/" + Join(names, '/') + Slashes(k)
  }

  lemma ComponentsOfText(first: string, names: Names, k: nat)
    requires '/' !in first && SlashFree(names) && names != [] && names[|names| - 1] != ""
    ensures Components(PathText(first, names, k)) == Some(names)
  {
    var parts := [first] + names;
    var text := first + "/" + Join(names, '/');
    assert parts[1..] == names;
    assert Join(parts, '/') == text;
    SplitOfJoin(parts, SLASH);
    SplitWithSlashes(text, k);
    DropsEmpties(parts, k);
    assert PathText(first, names, k)[|first|] == '/';
  }

  lemma TextOfComponents(path: string, names: Names) returns (first: string, k: nat)
    requires Components(path) == Some(names)
    ensures '/' !in first && path == PathText(first, names, k) && SlashFree(names)
  {
    var parts := JavaSplit(path);
    first, k := parts[0], |Split(path, SLASH)| - |parts|;
    SplitHasNoSeparator(path, SLASH);
    TrailingEmpties(Split(path, SLASH));
    assert parts == [first] + names;
    JoinWithEmpties(parts, k);
    JoinOfSplit(path, SLASH);
    assert Join(parts, '/') == first + "/" + Join(names, '/');
  }

  lemma JoinWithEmpties(parts: seq<string>, k: nat)
    requires parts != [] && SlashFree(parts)
    ensures Join(parts + Empties(k), SLASH) == Join(parts, '/') + Slashes(k)
  {
    SplitOfJoin(parts, SLASH);
    SplitWithSlashes(Join(parts, '/'), k);
    JoinOfSplit(Join(parts, '/') + Slashes(k), SLASH);
  }

  /**
   The components are the names between the slashes after the first one, empty ones included, but
   for the slashes at the end: exactly these names make up the path.
   */
  lemma ComponentsIff(path: string, names: Names)
    ensures Components(path) == Some(names) <==>
            && SlashFree(names) && names != [] && names[|names| - 1] != ""
            && exists first, k :: '/' !in first && path == PathText(first, names, k)
  {
    if Components(path) == Some(names) {
      var first, k := TextOfComponents(path, names);
    }
    if SlashFree(names) && names != [] && names[|names| - 1] != "" {
      forall first, k | '/' !in first && path == PathText(first, names, k) ensures Components(path) == Some(names) {
        ComponentsOfText(first, names, k);
      }
    }
  }

  /** A path is malformed exactly when its first slash, if it has one, is followed by slashes only. */
  lemma MalformedPaths(path: string)
    ensures Components(path).None? <==> forall i, j :: 0 <= i < j < |path| && path[i] == SLASH ==> path[j] == SLASH
  {
    if SLASH in path {
      DropLeavesFirst(Split(path, SLASH));
      PartsAfterFirst(path);
    }
  }

  lemma {:induction false} NonEmptyKeeps(parts: seq<string>)
    requires NoEmptyName(parts)
    ensures NonEmpty(parts) == parts
  {
    if parts != [] {
      NonEmptyKeeps(parts[1..]);
    }
  }

  lemma {:induction false} NonEmptyConcat(a: seq<string>, b: seq<string>)
    ensures NonEmpty(a + b) == NonEmpty(a) + NonEmpty(b)
  {
    if a == [] {
      assert a + b == b;
    } else {
      assert (a + b)[1..] == a[1..] + b;
      NonEmptyConcat(a[1..], b);
    }
  }

  lemma {:induction false} NonEmptyIsNameable(parts: seq<string>)
    requires SlashFree(parts)
    ensures Nameable(NonEmpty(parts))
  {
    if parts != [] {
      NonEmptyIsNameable(parts[1..]);
    }
  }

  /** Writing an absolute path and reading it back gives the same names. */
  lemma LocationOfAbsolute(p: Names)
    requires Nameable(p)
    ensures Location(Absolute(p)) == Some(p)
    ensures p != [] ==> Components(Absolute(p)) == Some(p)
  {
    if p != [] {
      SplitOfJoin([""] + p, SLASH);
      assert ([""] + p)[1..] == p;
      DropTrailingEmptyNoop([""] + p);
      assert p[0] != "";
      assert |Absolute(p)| > 1;
      assert SLASH in Absolute(p);
      assert Join([""] + p, SLASH) == [] + "/" + Join(p, SLASH);
    }
  }

  lemma SplitOfAbsolute(p: Names)
    requires Nameable(p)
    ensures NonEmpty(Split(Absolute(p), SLASH)) == p
  {
    if p == [] {
      assert Split("/", SLASH) == ["", ""];
    } else {
      assert Absolute(p) == [] + "/" + Join(p, SLASH);
      SplitOfConcat([], SLASH, Join(p, SLASH));
      SplitOfJoin(p, SLASH);
      NonEmptyKeeps(p);
      assert Split([], SLASH) + p == [""] + p;
      NonEmptyConcat([""], p);
    }
  }

  /** Paths.get appends a name to an absolute path; the empty name is swallowed. */
  lemma PathsGetOfAbsolute(p: Names, name: string)
    requires Nameable(p) && SLASH !in name
    ensures PathsGet(Absolute(p), name) == Absolute(NonEmpty(p + [name]))
  {
    NonEmptyConcat(p, [name]);
    NonEmptyKeeps(p);
    SplitOfAbsolute(p);
    if name == "" {
      assert p + NonEmpty([""]) == p;
    } else {
      SplitOfConcat(Absolute(p), SLASH, name);
      SplitOfSeparatorFree(name, SLASH);
      NonEmptyConcat(Split(Absolute(p), SLASH), [name]);
    }
  }

  lemma {:induction false} DroppedPartsAreEmpty(parts: seq<string>)
    ensures NonEmpty(parts) == NonEmpty(DropTrailingEmpty(parts))
  {
    if parts != [] && parts[|parts| - 1] == "" {
      var init := parts[..|parts| - 1];
      assert parts == init + [""];
      NonEmptyConcat(init, [""]);
      DroppedPartsAreEmpty(init);
    }
  }

  lemma FirstPartIsEmpty(s: string)
    requires s != ""
    ensures Split(s, SLASH)[0] == "" <==> s[0] == SLASH
  {}

  /** The names Normalise keeps: the first part, when there is one, and the path's own. */
  lemma PartsOfPath(path: string)
    requires Components(path).Some? && NoEmptyName(Components(path).value)
    ensures NonEmpty(Split(path, SLASH)) == NonEmpty([JavaSplit(path)[0]]) + Components(path).value
    ensures SLASH !in JavaSplit(path)[0]
    ensures path != "" && (JavaSplit(path)[0] == "" <==> path[0] == SLASH)
  {
    var parts, c := JavaSplit(path), Components(path).value;
    assert SLASH in path;
    DroppedPartsAreEmpty(Split(path, SLASH));
    assert parts == [parts[0]] + c;
    NonEmptyConcat([parts[0]], c);
    NonEmptyKeeps(c);
    FirstPartIsEmpty(path);
    SplitHasNoSeparator(path, SLASH);
  }

  lemma PartsOfJoined(path: string, name: string)
    requires Components(path).Some? && NoEmptyName(Components(path).value)
    requires name != "" && SLASH !in name
    ensures NonEmpty(Split(path + "/" + name, SLASH)) ==
            NonEmpty([JavaSplit(path)[0]]) + (Components(path).value + [name])
  {
    PartsOfPath(path);
    SplitOfConcat(path, SLASH, name);
    SplitOfSeparatorFree(name, SLASH);
    NonEmptyConcat(Split(path, SLASH), [name]);
    NonEmptyKeeps([name]);
    Associate(NonEmpty([JavaSplit(path)[0]]), Components(path).value, [name]);
  }

  /** PathsGet on a path with at least one name, none of them empty. */
  lemma PathsGetOfParts(path: string, name: string)
    requires Components(path).Some? && NoEmptyName(Components(path).value)
    requires name != "" && SLASH !in name
    ensures var first, p := JavaSplit(path)[0], Components(path).value + [name];
            PathsGet(path, name) == if first == "" then Absolute(p) else Join([first] + p, SLASH)
  {
    var first, p := JavaSplit(path)[0], Components(path).value + [name];
    PartsOfPath(path);
    PartsOfJoined(path, name);
    assert (path + "/" + name)[0] == path[0];
    if first == "" {
      EmptyLeft(p);
      assert NonEmpty([first]) == [];
    } else {
      NonEmptyKeeps([first]);
      EmptyLeft(Join([first] + p, SLASH));
    }
  }

  lemma LocationBelowRoot(name: string)
    requires name != "" && SLASH !in name
    ensures Location(PathsGet("/", name)) == Some([name])
  {
    PathsGetOfAbsolute([], name);
    assert [] + [name] == [name] && Absolute([]) == "/";
    NonEmptyKeeps([name]);
    LocationOfAbsolute([name]);
  }

  lemma LocationWithPrefix(first: string, p: Names)
    requires first != "" && SLASH !in first
    requires p != [] && Nameable(p)
    ensures Location(Join([first] + p, SLASH)) == Some(p)
  {
    var s := Join([first] + p, SLASH);
    SplitOfJoin([first] + p, SLASH);
    DropTrailingEmptyNoop([first] + p);
    assert ([first] + p)[1..] == p;
    assert s == first + ['/'] + Join(p, SLASH);
    assert s[|first|] == SLASH;
    assert s[0] == first[0];
  }

  lemma LocationBelowNames(path: string, name: string)
    requires Components(path).Some? && NoEmptyName(Components(path).value)
    requires name != "" && SLASH !in name
    ensures Location(PathsGet(path, name)) == Some(Components(path).value + [name])
  {
    var first, p := JavaSplit(path)[0], Components(path).value + [name];
    PathsGetOfParts(path, name);
    PartsOfPath(path);
    NameableWith(path, name);
    if first == "" {
      LocationOfAbsolute(p);
    } else {
      LocationWithPrefix(first, p);
    }
  }

  lemma NameableWith(path: string, name: string)
    requires Components(path).Some? && NoEmptyName(Components(path).value)
    requires name != "" && SLASH !in name
    ensures Nameable(Components(path).value + [name])
  {
    ComponentsAreSlashFree(path);
  }

  /**
   Going down one name in the string is going down one name in the trie, for every way of
   writing the path (any text before the first slash, doubled or trailing slashes), as long as
   neither the names of the path nor the new one are empty.
   */
  lemma LocationOfPathsGet(path: string, name: string)
    requires Location(path).Some? && NoEmptyName(Location(path).value)
    requires name != "" && SLASH !in name
    ensures Location(PathsGet(path, name)) == Some(Location(path).value + [name])
  {
    if path == "/" {
      LocationBelowRoot(name);
      EmptyLeft([name]);
    } else {
      LocationBelowNames(path, name);
    }
  }

  /** What Paths.get writes leads nowhere or along non-empty names. */
  lemma LocationOfNormalised(s: string)
    ensures Location(Normalise(s)).Some? ==> NoEmptyName(Location(Normalise(s)).value)
  {
    var kept := NonEmpty(Split(s, SLASH));
    SplitHasNoSeparator(s, SLASH);
    NonEmptyIsNameable(Split(s, SLASH));
    if s != "" && s[0] == SLASH {
      LocationOfAbsolute(kept);
    } else {
      assert Normalise(s) == Join(kept, SLASH);
      if |kept| > 1 {
        assert kept == [kept[0]] + kept[1..];
        LocationWithPrefix(kept[0], kept[1..]);
      }
    }
  }

  lemma KeptJoinIsTidy(kept: seq<string>)
    requires Nameable(kept)
    ensures var s := Join(kept, '/');
            && (s != "" ==> s[0] != '/' && s[|s| - 1] != '/')
            && (forall i :: 0 < i < |s| ==> s[i - 1] != '/' || s[i] != '/')
  {
    if |kept| == 1 {
      assert kept[0] == Join(kept, '/');
    } else if |kept| > 1 {
      var rest := Join(kept[1..], '/');
      KeptJoinIsTidy(kept[1..]);
      assert kept[1..][0] != "";
      JoinIsLong(kept[1..]);
      assert Join(kept, '/') == kept[0] + "/" + rest;
    }
  }

  lemma JoinIsLong(kept: seq<string>)
    requires kept != [] && kept[0] != ""
    ensures Join(kept, '/') != ""
  {}

  lemma NamesOfJoin(kept: seq<string>)
    requires Nameable(kept)
    ensures NonEmpty(Split(Join(kept, '/'), SLASH)) == kept
  {
    if kept != [] {
      SplitOfJoin(kept, SLASH);
      NonEmptyKeeps(kept);
    } else {
      assert Split("", SLASH) == [""];
    }
  }

  /**
   What the file system makes of a path: the same names in the same order and the same slash in
   front, no two slashes together, and none at the end but that of the root.
   */
  lemma NormaliseMeaning(s: string)
    ensures var n := Normalise(s);
            && NonEmpty(Split(n, '/')) == NonEmpty(Split(s, '/'))
            && (n != "" && n[0] == '/' <==> s != "" && s[0] == '/')
            && (forall i :: 0 < i < |n| ==> n[i - 1] != '/' || n[i] != '/')
            && (n == "" || n == "/" || n[|n| - 1] != '/')
  {
    var kept := NonEmpty(Split(s, SLASH));
    SplitHasNoSeparator(s, SLASH);
    NonEmptyIsNameable(Split(s, SLASH));
    KeptJoinIsTidy(kept);
    if s != "" && s[0] == SLASH {
      SplitOfAbsolute(kept);
    } else {
      assert Normalise(s) == Join(kept, '/');
      NamesOfJoin(kept);
    }
  }

  /** The place of a node: the root, or a name below another place. */
  datatype Path = Root | Child(parent: Path, name: string)
  {
    /** The names on the way from the root. */
    function Names(): Names {
      if Root? then [] else parent.Names() + [name]
    }

    predicate IsPrefixOf(q: Path) {
      this == q || (q.Child? && IsPrefixOf(q.parent))
    }
  }

  function At(names: Names): (p: Path)
    ensures p.Names() == names
  {
    if names == [] then Root else Child(At(names[..|names| - 1]), names[|names| - 1])
  }

  lemma AtStep(names: Names, k: nat)
    requires k < |names|
    ensures At(names[..k + 1]) == Child(At(names[..k]), names[k])
  {
    assert names[..k + 1][..k] == names[..k];
  }

  lemma {:induction false} AtIsMonotone(names: Names, k: nat)
    requires k <= |names|
    ensures At(names[..k]).IsPrefixOf(At(names))
  {
    if k == |names| {
      assert names[..k] == names;
    } else {
      var init := names[..|names| - 1];
      assert init[..k] == names[..k];
      AtIsMonotone(init, k);
    }
  }

  lemma {:induction false} AtOfNames(p: Path)
    ensures At(p.Names()) == p
  {
    if p.Child? {
      AtOfNames(p.parent);
      assert p.Names()[..|p.Names()| - 1] == p.parent.Names();
    }
  }

  lemma {:induction false} PrefixOfNames(p: Path, q: Path)
    ensures p.IsPrefixOf(q) <==> p.Names() <= q.Names()
  {
    AtOfNames(p);
    AtOfNames(q);
    if q.Child? {
      PrefixOfNames(p, q.parent);
      var a, b := p.Names(), q.Names();
      assert b[..|b| - 1] == q.parent.Names();
      if a <= b && a != b {
        assert a <= b[..|b| - 1];
      }
    }
  }

  lemma {:induction false} PrefixTransitive(p: Path, q: Path, r: Path)
    requires p.IsPrefixOf(q) && q.IsPrefixOf(r)
    ensures p.IsPrefixOf(r)
  {
    if q != r {
      PrefixTransitive(p, q, r.parent);
    }
  }

  lemma ParentIsNoExtension(p: Path)
    requires p.Child?
    ensures !p.IsPrefixOf(p.parent)
  {
    PrefixOfNames(p, p.parent);
  }
}
