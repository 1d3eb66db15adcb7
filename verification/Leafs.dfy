/** What getLeafs returns, and what it is good for: rebuilding the trie. */
module Leafs {
  import opened Wrappers
  import opened Sequences
  import opened Paths
  import opened TrieStore

  /** The string getLeafs has made on its way from p, where it held path, down to q. */
  function Descend(path: string, p: Path, q: Path): string
    requires p.IsPrefixOf(q)
  {
    if p == q then path else PathsGet(Descend(path, p, q.parent), q.name)
  }

  /** The leaves at or below p. */
  ghost function LeavesBelow(m: Store, p: Path): set<Path> {
    set q | q in m && IsLeaf(m, q) && p.IsPrefixOf(q)
  }

  /** getLeafs(path) when path leads to p. */
  ghost function LeafStrings(m: Store, path: string, p: Path): set<string> {
    set q | q in LeavesBelow(m, p) :: Descend(path, p, q)
  }

  /** The part of it that comes through the given children. */
  ghost function LeafStringsVia(m: Store, path: string, p: Path, names: set<string>): set<string> {
    set name, q | name in names && q in LeavesBelow(m, Child(p, name)) ::
      Descend(PathsGet(path, name), Child(p, name), q)
  }

  ghost function Extensions(m: Store, p: Path): set<Path> {
    set q | q in m && p.IsPrefixOf(q)
  }

  lemma ChildHasFewerExtensions(m: Store, p: Path, name: string)
    requires p in m
    ensures Extensions(m, Child(p, name)) < Extensions(m, p)
  {
    var c := Child(p, name);
    forall r | r in m && c.IsPrefixOf(r) ensures p.IsPrefixOf(r) {
      PrefixTransitive(p, c, r);
    }
    ParentIsNoExtension(c);
    assert p in Extensions(m, p) && p !in Extensions(m, c);
  }

  lemma {:induction false} DescendThroughChild(path: string, p: Path, name: string, q: Path)
    requires Child(p, name).IsPrefixOf(q)
    ensures p.IsPrefixOf(q)
    ensures Descend(path, p, q) == Descend(PathsGet(path, name), Child(p, name), q)
  {
    PrefixTransitive(p, Child(p, name), q);
    if q == Child(p, name) {
      ParentIsNoExtension(q);
      assert Descend(path, p, q.parent) == path;
    } else {
      DescendThroughChild(path, p, name, q.parent);
      if p == q { ParentIsNoExtension(Child(p, name)); assert false; }
    }
  }

  /** The child of p on the way to q. */
  lemma {:induction false} NextName(p: Path, q: Path) returns (name: string)
    requires p.IsPrefixOf(q) && p != q
    ensures Child(p, name).IsPrefixOf(q)
  {
    if p == q.parent {
      name := q.name;
    } else {
      name := NextName(p, q.parent);
    }
  }

  /** A node that is no leaf contributes what its children contribute. */
  lemma LeafStringsOfChildren(m: Store, path: string, p: Path, names: set<string>)
    requires PrefixClosed(m) && p in m && !IsLeaf(m, p)
    requires forall name :: name in names <==> Child(p, name) in m
    ensures LeafStrings(m, path, p) == LeafStringsVia(m, path, p, names)
  {
    forall q | q in LeavesBelow(m, p)
      ensures Descend(path, p, q) in LeafStringsVia(m, path, p, names)
    {
      var name := NextName(p, q);
      PrefixExists(m, Child(p, name), q);
      DescendThroughChild(path, p, name, q);
      assert q in LeavesBelow(m, Child(p, name));
    }
    forall name, q | name in names && q in LeavesBelow(m, Child(p, name))
      ensures Descend(PathsGet(path, name), Child(p, name), q) in LeafStrings(m, path, p)
    {
      DescendThroughChild(path, p, name, q);
      assert q in LeavesBelow(m, p);
    }
  }

  lemma LeafStringsOfLeaf(m: Store, path: string, p: Path)
    requires IsLeaf(m, p)
    ensures LeafStrings(m, path, p) == {path}
  {
    assert LeavesBelow(m, p) == {p};
    assert p in LeavesBelow(m, p);
    assert Descend(path, p, p) == path;
  }

  /** An existing path is a leaf exactly when it is not the root and has no child. */
  lemma LeafHasNoChild(m: Store, p: Path)
    requires PrefixClosed(m) && p in m
    ensures IsLeaf(m, p) <==> p.Child? && forall name :: Child(p, name) !in m
  {
    if p.Child? && forall name :: Child(p, name) !in m {
      forall q | q in m && p.IsPrefixOf(q) ensures q == p {
        if q != p {
          var name := NextName(p, q);
          PrefixExists(m, Child(p, name), q);
        }
      }
    }
    forall name | Child(p, name) in m ensures !IsLeaf(m, p) {
      assert p.IsPrefixOf(Child(p, name));
    }
  }

  /** Every name in the trie comes out of split("/"), so none holds a slash. */
  ghost predicate AllSlashFree(m: Store) {
    forall q :: q in m ==> SlashFree(q.Names())
  }

  /** From a path string that leads to p, the string made for q leads to q. */
  lemma {:induction false} DescendLocates(path: string, p: Path, q: Path)
    requires p.IsPrefixOf(q) && Location(path) == Some(p.Names())
    requires Nameable(q.Names())
    ensures Location(Descend(path, p, q)) == Some(q.Names())
  {
    if p != q {
      NameableParent(q);
      DescendLocates(path, p, q.parent);
      LocationOfPathsGet(Descend(path, p, q.parent), q.name);
    }
  }

  lemma NameableParent(q: Path)
    requires q.Child?
    ensures SlashFree(q.Names()) <==> SlashFree(q.parent.Names()) && SLASH !in q.name
    ensures NoEmptyName(q.Names()) <==> NoEmptyName(q.parent.Names()) && q.name != ""
  {
    var names, init := q.Names(), q.parent.Names();
    assert names[|init|] == q.name;
    assert forall i :: 0 <= i < |init| ==> names[i] == init[i];
  }

  /** The name of path itself is not rewritten; those below it must not be empty. */
  ghost predicate Survives(p: Path, q: Path) {
    q == p || NoEmptyName(q.Names())
  }

  /** The string made for q leads to q exactly when q is where it starts, or has no empty name. */
  lemma DescendLocatesIff(path: string, p: Path, q: Path)
    requires p.IsPrefixOf(q) && Location(path) == Some(p.Names()) && SlashFree(q.Names())
    ensures Location(Descend(path, p, q)) == Some(q.Names()) <==> Survives(p, q)
    ensures q != p ==> DescendsWithoutEmptyName(path, p, q)
  {
    if q != p {
      var from := Descend(path, p, q.parent);
      LocationOfNormalised(if q.name == "" then from else if from == "" then q.name else from + "/" + q.name);
      if NoEmptyName(q.Names()) {
        DescendLocates(path, p, q);
      }
    }
  }

  ghost predicate DescendsWithoutEmptyName(path: string, p: Path, q: Path)
    requires p.IsPrefixOf(q)
  {
    var l := Location(Descend(path, p, q));
    l.Some? ==> NoEmptyName(l.value)
  }

  /** Where the strings lead. */
  ghost function Places(strings: set<string>): set<Path> {
    set s | s in strings && Location(s).Some? :: At(Location(s).value)
  }

  lemma PlaceOfLeaf(m: Store, path: string, p: Path, q: Path)
    requires q in LeavesBelow(m, p) && Location(Descend(path, p, q)) == Some(q.Names())
    ensures q in Places(LeafStrings(m, path, p))
  {
    AtOfNames(q);
    assert Descend(path, p, q) in LeafStrings(m, path, p);
  }

  lemma LeafOfPlace(m: Store, path: string, p: Path, q: Path) returns (r: Path)
    requires q in Places(LeafStrings(m, path, p))
    ensures r in LeavesBelow(m, p) && Location(Descend(path, p, r)) == Some(q.Names())
  {
    var s :| s in LeafStrings(m, path, p) && Location(s).Some? && At(Location(s).value) == q;
    r :| r in LeavesBelow(m, p) && Descend(path, p, r) == s;
  }

  lemma SurvivingLeavesAreTheirPlaces(m: Store, path: string, p: Path, q: Path)
    requires Location(path) == Some(p.Names()) && AllSlashFree(m)
    requires forall r :: r in LeavesBelow(m, p) ==> Survives(p, r)
    ensures q in Places(LeafStrings(m, path, p)) <==> q in LeavesBelow(m, p)
  {
    if q in LeavesBelow(m, p) {
      DescendLocatesIff(path, p, q);
      PlaceOfLeaf(m, path, p, q);
    }
    if q in Places(LeafStrings(m, path, p)) {
      var r := LeafOfPlace(m, path, p, q);
      assert Survives(p, r);
      DescendLocatesIff(path, p, r);
      AtOfNames(q);
      AtOfNames(r);
    }
  }

  lemma LostLeafIsNoPlace(m: Store, path: string, p: Path, q: Path)
    requires Location(path) == Some(p.Names()) && AllSlashFree(m)
    requires !Survives(p, q)
    ensures q !in Places(LeafStrings(m, path, p))
  {
    if q in Places(LeafStrings(m, path, p)) {
      var r := LeafOfPlace(m, path, p, q);
      DescendLocatesIff(path, p, r);
      AtOfNames(q);
      AtOfNames(p);
    }
  }

  /**
   The strings of getLeafs(path), however path is written, lead exactly to the leaves at or below
   it if and only if none of these leaves, but for path itself, has an empty name. The string made
   for one leaf leads to it on the same condition.
   */
  lemma GetLeafsNamesTheLeavesIff(m: Store, path: string, p: Path)
    requires Location(path) == Some(p.Names()) && AllSlashFree(m)
    ensures forall q :: q in LeavesBelow(m, p) ==>
              (Location(Descend(path, p, q)) == Some(q.Names()) <==> Survives(p, q))
    ensures Places(LeafStrings(m, path, p)) == LeavesBelow(m, p) <==>
            forall q :: q in LeavesBelow(m, p) ==> Survives(p, q)
  {
    forall q | q in LeavesBelow(m, p)
      ensures Location(Descend(path, p, q)) == Some(q.Names()) <==> Survives(p, q)
    {
      DescendLocatesIff(path, p, q);
    }
    if forall q :: q in LeavesBelow(m, p) ==> Survives(p, q) {
      forall q ensures q in Places(LeafStrings(m, path, p)) <==> q in LeavesBelow(m, p) {
        SurvivingLeavesAreTheirPlaces(m, path, p, q);
      }
    } else {
      var q :| q in LeavesBelow(m, p) && !Survives(p, q);
      LostLeafIsNoPlace(m, path, p, q);
    }
  }

  /** From an absolute path the strings are absolute paths, but the empty names are lost. */
  lemma {:induction false} DescendFromAbsolute(p: Path, q: Path)
    requires p.IsPrefixOf(q) && Nameable(p.Names()) && SlashFree(q.Names())
    ensures Descend(Absolute(p.Names()), p, q) == Absolute(NonEmpty(q.Names()))
  {
    if p == q {
      NonEmptyKeeps(q.Names());
    } else {
      NameableParent(q);
      var kept := NonEmpty(q.parent.Names());
      DescendFromAbsolute(p, q.parent);
      NonEmptyIsNameable(q.parent.Names());
      PathsGetOfAbsolute(kept, q.name);
      NonEmptyConcat(kept, [q.name]);
      NonEmptyConcat(q.parent.Names(), [q.name]);
      NonEmptyKeeps(kept);
    }
  }

  /** getLeafs("/a/b") returns the leaves written the same way, without their empty names. */
  lemma GetLeafsOfAbsolute(m: Store, p: Path)
    requires Nameable(p.Names()) && AllSlashFree(m)
    ensures LeafStrings(m, Absolute(p.Names()), p) == set q | q in LeavesBelow(m, p) :: Absolute(NonEmpty(q.Names()))
  {
    forall q | q in LeavesBelow(m, p)
      ensures Descend(Absolute(p.Names()), p, q) == Absolute(NonEmpty(q.Names()))
    {
      DescendFromAbsolute(p, q);
    }
  }

  /** addPath(s) for one string after another, going on after a rejected one. */
  function AddAll(m: Store, paths: seq<string>): Store {
    if paths == [] then m
    else AddPath(AddAll(m, paths[..|paths| - 1]), Some(paths[|paths| - 1]), None).0
  }

  ghost predicate Adds(path: string, q: Path) {
    Components(path).Some? && q.IsPrefixOf(At(Components(path).value))
  }

  lemma AddPathKeys(m: Store, path: string, q: Path)
    requires Root in m
    ensures var n := AddPath(m, Some(path), None).0;
            Root in n && (q in n <==> q in m || Adds(path, q))
  {
    if Components(path).Some? {
      WithPrefixesMeaning(m, At(Components(path).value));
    }
  }

  ghost predicate AddedBySome(paths: seq<string>, q: Path) {
    exists s :: s in paths && Adds(s, q)
  }

  lemma AddedByLast(paths: seq<string>, q: Path)
    requires paths != []
    ensures AddedBySome(paths, q) <==> AddedBySome(paths[..|paths| - 1], q) || Adds(paths[|paths| - 1], q)
  {
    var init, last := paths[..|paths| - 1], paths[|paths| - 1];
    assert forall s :: s in paths <==> s in init || s == last by {
      assert paths == init + [last];
    }
  }

  lemma {:induction false} AddAllKeys(m: Store, paths: seq<string>, q: Path)
    requires Root in m
    ensures Root in AddAll(m, paths)
    ensures q in AddAll(m, paths) <==> q in m || AddedBySome(paths, q)
  {
    if paths != [] {
      var init, last := paths[..|paths| - 1], paths[|paths| - 1];
      AddAllKeys(m, init, q);
      AddedByLast(paths, q);
      AddPathKeys(AddAll(m, init), last, q);
    }
  }

  lemma LeafAtOrBelow(m: Store, p: Path) returns (leaf: Path)
    requires PrefixClosed(m) && p in m && p.Child?
    ensures leaf in LeavesBelow(m, p)
    decreases Extensions(m, p)
  {
    if IsLeaf(m, p) {
      leaf := p;
    } else {
      var q :| q in m && p.IsPrefixOf(q) && q != p;
      var name := NextName(p, q);
      var c := Child(p, name);
      PrefixExists(m, c, q);
      ChildHasFewerExtensions(m, p, name);
      leaf := LeafAtOrBelow(m, c);
      PrefixTransitive(p, c, leaf);
    }
  }

  lemma RootIsMalformed()
    ensures Absolute([]) == "/" && Components("/").None?
  {
    MalformedPaths("/");
  }

  lemma DescendFromRoot(q: Path)
    requires Root.IsPrefixOf(q) && SlashFree(q.Names())
    ensures Descend("/", Root, q) == Absolute(NonEmpty(q.Names()))
  {
    RootIsMalformed();
    DescendFromAbsolute(Root, q);
  }

  /** What adding one string of getLeafs("/") makes. */
  lemma RootLeafStringAdds(q: Path)
    requires q.Child? && SlashFree(q.Names())
    ensures Root.IsPrefixOf(q)
    ensures var s, kept := Descend("/", Root, q), NonEmpty(q.Names());
            Components(s) == if kept == [] then None else Some(kept)
  {
    RootIsPrefix(q);
    DescendFromRoot(q);
    NonEmptyIsNameable(q.Names());
    LocationOfAbsolute(NonEmpty(q.Names()));
    RootIsMalformed();
  }

  lemma {:induction false} RootIsPrefix(q: Path)
    ensures Root.IsPrefixOf(q)
  {
    if q.Child? { RootIsPrefix(q.parent); }
  }

  lemma {:induction false} NoEmptyNamePrefix(p: Path, q: Path)
    requires p.IsPrefixOf(q) && NoEmptyName(q.Names())
    ensures NoEmptyName(p.Names())
  {
    if p != q {
      NameableParent(q);
      NoEmptyNamePrefix(p, q.parent);
    }
  }

  /**
   Adding every path of getLeafs("/"), in any order, to an empty trie rebuilds the existing
   paths if and only if no name in the trie is empty.
   */
  lemma RebuildFromLeafs(m: Store, paths: seq<string>)
    requires PrefixClosed(m) && AllSlashFree(m)
    requires forall s :: s in paths <==> s in LeafStrings(m, "/", Root)
    ensures AddAll(EMPTY, paths).Keys == m.Keys <==> forall q :: q in m ==> NoEmptyName(q.Names())
  {
    var rebuilt := AddAll(EMPTY, paths);
    forall q | q in rebuilt ensures NoEmptyName(q.Names()) {
      RebuiltIsNameable(m, paths, q);
    }
    if forall q :: q in m ==> NoEmptyName(q.Names()) {
      forall q ensures q in rebuilt <==> q in m {
        RebuiltKeys(m, paths, q);
      }
    }
  }

  lemma RebuiltIsNameable(m: Store, paths: seq<string>, q: Path)
    requires PrefixClosed(m) && AllSlashFree(m)
    requires forall s :: s in paths <==> s in LeafStrings(m, "/", Root)
    requires q in AddAll(EMPTY, paths)
    ensures NoEmptyName(q.Names())
  {
    AddAllKeys(EMPTY, paths, q);
    if q != Root {
      var s :| s in paths && Adds(s, q);
      var leaf :| leaf in LeavesBelow(m, Root) && s == Descend("/", Root, leaf);
      RootLeafStringAdds(leaf);
      var kept := NonEmpty(leaf.Names());
      NonEmptyIsNameable(leaf.Names());
      NoEmptyNamePrefix(q, At(kept));
    }
  }

  lemma RebuiltKeys(m: Store, paths: seq<string>, q: Path)
    requires PrefixClosed(m) && AllSlashFree(m)
    requires forall s :: s in paths <==> s in LeafStrings(m, "/", Root)
    requires forall r :: r in m ==> NoEmptyName(r.Names())
    ensures q in AddAll(EMPTY, paths) <==> q in m
  {
    AddAllKeys(EMPTY, paths, q);
    if q in m && q.Child? {
      var leaf := LeafAtOrBelow(m, q);
      RootLeafStringAdds(leaf);
      NonEmptyKeeps(leaf.Names());
      AtOfNames(leaf);
      assert leaf in LeavesBelow(m, Root);
      var s := Descend("/", Root, leaf);
      assert s in paths && Adds(s, q);
    }
    if q in AddAll(EMPTY, paths) && q.Child? {
      var s :| s in paths && Adds(s, q);
      var leaf :| leaf in LeavesBelow(m, Root) && s == Descend("/", Root, leaf);
      RootLeafStringAdds(leaf);
      NonEmptyKeeps(leaf.Names());
      AtOfNames(leaf);
      PrefixExists(m, q, leaf);
    }
  }
}
