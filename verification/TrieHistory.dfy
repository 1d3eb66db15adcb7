/** What a whole run of addPath, deletePath and clear leaves in the trie. */
module TrieHistory {
  import opened Wrappers
  import opened Sequences
  import opened Paths
  import opened TrieStore
  import opened Leafs

  /** A call with the path it names; None when the path is null or malformed. */
  datatype RawCall =
    | Add(target: Option<Path>, data: Option<Data>)
    | Delete(target: Option<Path>)
    | Clear
  {
    ghost predicate CanBeMade() {
      !Clear? && target.Some? ==> target.value.Child? && SlashFree(target.value.Names())
    }
  }

  type Call = c: RawCall | c.CanBeMade() witness Clear

  function Target(path: Option<string>): Option<Path> {
    if path.None? then None
    else match Components(path.value)
      case None => None
      case Some(names) => Some(At(names))
  }

  function Apply(m: Store, call: Call): Store {
    match call
    case Add(target, data) => if target.Some? then Added(m, target.value, data) else m
    case Delete(target) => if target.Some? then Deleted(m, target.value) else m
    case Clear => Cleared(m)
  }

  /** The string-level operations are these calls. */
  lemma CallsOfStrings(m: Store, path: Option<string>, data: Option<Data>)
    ensures Add(Target(path), data).CanBeMade()
    ensures AddPath(m, path, data).0 == Apply(m, Add(Target(path), data))
    ensures DeletePath(m, path).0 == Apply(m, Delete(Target(path)))
  {
    if path.Some? {
      ComponentsAreSlashFree(path.value);
    }
  }

  /** The malformed paths: the first slash, if there is one, is followed by slashes only. */
  predicate IsMalformed(path: string) {
    forall i, j :: 0 <= i < j < |path| && path[i] == '/' ==> path[j] == '/'
  }

  /** A call is rejected exactly for a malformed path, and then, as for null, it changes nothing. */
  lemma OutcomesOfCalls(m: Store, path: Option<string>, data: Option<Data>)
    ensures var bad := path.Some? && IsMalformed(path.value);
            && AddPath(m, path, data).1 == (if bad then InvalidPath else Done)
            && DeletePath(m, path).1 == (if bad then InvalidPath else Done)
            && FindPath(m, path).1 == (if bad && path != Some("/") then InvalidPath else Done)
            && (bad || path.None? ==>
                  && AddPath(m, path, data).0 == m && DeletePath(m, path).0 == m
                  && FindPath(m, path).0 == if path == Some("/") && Root in m then Some(Root) else None)
  {
    if path.Some? {
      MalformedPaths(path.value);
    }
  }

  /** The trie after the calls, from the empty one; rejected calls are part of the run. */
  function Run(calls: seq<Call>): Store {
    if calls == [] then EMPTY else Apply(Run(calls[..|calls| - 1]), calls[|calls| - 1])
  }

  /** The call makes q exist. */
  predicate Makes(call: Call, q: Path) {
    call.Add? && call.target.Some? && q.IsPrefixOf(call.target.value)
  }

  /** The call gives q the data d. */
  predicate Writes(call: Call, q: Path, d: Data) {
    call == Add(Some(q), Some(d))
  }

  predicate WritesSome(call: Call, q: Path) {
    call.Add? && call.target == Some(q) && call.data.Some?
  }

  /** The call removes q if it is there. */
  predicate Removes(call: Call, q: Path) {
    q.Child? && (call.Clear? || (call.Delete? && call.target.Some? && call.target.value.IsPrefixOf(q)))
  }

  ghost predicate NotRemovedAfter(calls: seq<Call>, i: nat, q: Path) {
    forall j :: i < j < |calls| ==> !Removes(calls[j], q)
  }

  ghost predicate NotRewrittenAfter(calls: seq<Call>, i: nat, q: Path) {
    forall j :: i < j < |calls| ==> !WritesSome(calls[j], q)
  }

  ghost predicate MadeAndKept(calls: seq<Call>, q: Path) {
    exists i :: 0 <= i < |calls| && Makes(calls[i], q) && NotRemovedAfter(calls, i, q)
  }

  ghost predicate WrittenAndKept(calls: seq<Call>, q: Path, d: Data) {
    exists i :: 0 <= i < |calls| && Writes(calls[i], q, d)
                && NotRemovedAfter(calls, i, q) && NotRewrittenAfter(calls, i, q)
  }

  lemma {:induction false} RunIsWellFormed(calls: seq<Call>)
    ensures PrefixClosed(Run(calls)) && AllSlashFree(Run(calls))
  {
    if calls != [] {
      RunIsWellFormed(calls[..|calls| - 1]);
      ApplyIsWellFormed(Run(calls[..|calls| - 1]), calls[|calls| - 1]);
    }
  }

  lemma {:induction false} SlashFreePrefix(p: Path, q: Path)
    requires p.IsPrefixOf(q) && SlashFree(q.Names())
    ensures SlashFree(p.Names())
  {
    if p != q {
      NameableParent(q);
      SlashFreePrefix(p, q.parent);
    }
  }

  lemma ApplyIsWellFormed(m: Store, call: Call)
    requires PrefixClosed(m) && AllSlashFree(m)
    ensures PrefixClosed(Apply(m, call)) && AllSlashFree(Apply(m, call))
  {
    if call.Add? && call.target.Some? {
      var p := call.target.value;
      WithPrefixesMeaning(m, p);
      forall q | q in Prefixes(p)
        ensures SlashFree(q.Names()) && (q.Child? ==> q.parent in Prefixes(p))
      {
        SlashFreePrefix(q, p);
        if q.Child? {
          PrefixTransitive(q.parent, q, p);
        }
      }
    }
  }

  /**
   A path exists exactly when some addPath of it or of an extension is not followed by a clear
   or by a deletePath of it or of a prefix.
   */
  lemma {:induction false} ExistsIffMadeAndKept(calls: seq<Call>, q: Path)
    ensures Root in Run(calls)
    ensures q.Child? ==> (q in Run(calls) <==> MadeAndKept(calls, q))
  {
    if calls != [] {
      var init, call := calls[..|calls| - 1], calls[|calls| - 1];
      ExistsIffMadeAndKept(init, q);
      ApplyExistence(Run(init), call, q);
      MadeAndKeptStep(init, call, q);
      assert calls == init + [call];
    }
  }

  lemma ApplyExistence(m: Store, call: Call, q: Path)
    requires Root in m
    ensures Root in Apply(m, call)
    ensures q.Child? ==> (q in Apply(m, call) <==> Makes(call, q) || (q in m && !Removes(call, q)))
  {
    if call.Add? && call.target.Some? {
      WithPrefixesMeaning(m, call.target.value);
    }
  }

  lemma MadeAndKeptStep(init: seq<Call>, call: Call, q: Path)
    ensures MadeAndKept(init + [call], q) <==> Makes(call, q) || (MadeAndKept(init, q) && !Removes(call, q))
  {
    var calls := init + [call];
    if Makes(call, q) {
      assert calls[|init|] == call && NotRemovedAfter(calls, |init|, q);
    }
    if MadeAndKept(init, q) && !Removes(call, q) {
      var i :| 0 <= i < |init| && Makes(init[i], q) && NotRemovedAfter(init, i, q);
      assert calls[i] == init[i] && NotRemovedAfter(calls, i, q);
    }
    if MadeAndKept(calls, q) && !Makes(call, q) {
      var i :| 0 <= i < |calls| && Makes(calls[i], q) && NotRemovedAfter(calls, i, q);
      assert i < |init|;
      assert calls[|init|] == call;
      assert forall j :: i < j < |init| ==> calls[j] == init[j];
      assert Makes(init[i], q) && NotRemovedAfter(init, i, q);
    }
  }

  /**
   getNodeData(q) is the data of the last addPath(q, data) with data, unless a clear or a
   deletePath of q or of a prefix came after it; null if there is none.
   */
  lemma {:induction false} DataIsTheLastWrite(calls: seq<Call>, q: Path, d: Data)
    ensures DataAt(Run(calls), q) == Some(d) <==> WrittenAndKept(calls, q, d)
  {
    if calls != [] {
      var init, call := calls[..|calls| - 1], calls[|calls| - 1];
      ExistsIffMadeAndKept(init, q);
      DataIsTheLastWrite(init, q, d);
      ApplyData(Run(init), call, q, d);
      WrittenAndKeptStep(init, call, q, d);
      assert calls == init + [call];
    }
  }

  /** existsNode and getNodeData of a path string, after any run. */
  lemma QueriesAfterRun(calls: seq<Call>, path: string, d: Data)
    ensures var (found, outcome) := FindPath(Run(calls), Some(path));
            match Components(path)
            case None =>
              if path == "/" then found == Some(Root) && outcome == Done else found == None && outcome == InvalidPath
            case Some(names) =>
              && outcome == Done && (found.Some? <==> MadeAndKept(calls, At(names)))
              && (found.Some? && Run(calls)[found.value] == Some(d) <==> WrittenAndKept(calls, At(names), d))
  {
    ExistsIffMadeAndKept(calls, Root);
    if Components(path).Some? {
      var q := At(Components(path).value);
      assert path != "/" by {
        MalformedPaths(path);
      }
      ExistsIffMadeAndKept(calls, q);
      DataIsTheLastWrite(calls, q, d);
    }
  }

  lemma ApplyData(m: Store, call: Call, q: Path, d: Data)
    requires Root in m
    ensures DataAt(Apply(m, call), q) == Some(d) <==>
            Writes(call, q, d) || (DataAt(m, q) == Some(d) && !Removes(call, q) && !WritesSome(call, q))
  {
    if call.Add? && call.target.Some? {
      WithPrefixesMeaning(m, call.target.value);
    }
  }

  lemma WrittenAndKeptStep(init: seq<Call>, call: Call, q: Path, d: Data)
    ensures WrittenAndKept(init + [call], q, d) <==>
            Writes(call, q, d) || (WrittenAndKept(init, q, d) && !Removes(call, q) && !WritesSome(call, q))
  {
    var calls := init + [call];
    if Writes(call, q, d) {
      assert calls[|init|] == call && NotRemovedAfter(calls, |init|, q) && NotRewrittenAfter(calls, |init|, q);
    }
    if WrittenAndKept(init, q, d) && !Removes(call, q) && !WritesSome(call, q) {
      var i :| 0 <= i < |init| && Writes(init[i], q, d) && NotRemovedAfter(init, i, q) && NotRewrittenAfter(init, i, q);
      assert calls[i] == init[i] && NotRemovedAfter(calls, i, q) && NotRewrittenAfter(calls, i, q);
    }
    if WrittenAndKept(calls, q, d) && !Writes(call, q, d) {
      var i :| 0 <= i < |calls| && Writes(calls[i], q, d)
               && NotRemovedAfter(calls, i, q) && NotRewrittenAfter(calls, i, q);
      assert i < |init| && calls[|init|] == call;
      assert forall j :: i < j < |init| ==> calls[j] == init[j];
      assert Writes(init[i], q, d) && NotRemovedAfter(init, i, q) && NotRewrittenAfter(init, i, q);
    }
  }

  /** Rebuilding from getLeafs("/") after any run: exactly when no name in the trie is empty. */
  lemma RunRebuildsFromLeafs(calls: seq<Call>, paths: seq<string>)
    requires forall s :: s in paths <==> s in LeafStrings(Run(calls), "/", Root)
    ensures AddAll(EMPTY, paths).Keys == Run(calls).Keys <==> forall q :: q in Run(calls) ==> NoEmptyName(q.Names())
  {
    RunIsWellFormed(calls);
    RebuildFromLeafs(Run(calls), paths);
  }

  lemma SlashExamples()
    ensures Components("//a") == Some(["", "a"])
    ensures Components("/a") == Some(["a"])
  {
    SplitOfJoin(["", "", "a"], SLASH);
    assert Join(["a"], SLASH) == "a" && Join(["", "a"], SLASH) == "/a" && Join(["", "", "a"], SLASH) == "//a";
    SplitOfJoin(["", "a"], SLASH);
  }

  lemma ReadDoubledSlash()
    ensures Target(Some("//a")) == Some(Child(Child(Root, ""), "a"))
  {
    var q := Child(Child(Root, ""), "a");
    SlashExamples();
    assert q.Names() == ["", "a"];
    AtOfNames(q);
  }

  lemma SingleSlashAdds(q: Path)
    requires q == Child(Child(Root, ""), "a")
    ensures !Adds("/a", q)
  {
    SlashExamples();
    LongerIsNoPrefix(q, ["a"]);
  }

  lemma LongerIsNoPrefix(q: Path, names: Names)
    requires |q.Names()| > |names|
    ensures !q.IsPrefixOf(At(names))
  {
    PrefixOfNames(q, At(names));
  }

  lemma RebuiltWithoutDoubledSlash(q: Path)
    requires q == Child(Child(Root, ""), "a")
    ensures q !in AddAll(EMPTY, ["/a"])
  {
    SingleSlashAdds(q);
    AddAllKeys(EMPTY, ["/a"], q);
  }

  /** In a trie made by one addPath there is one leaf, the path added. */
  lemma OneAddOneLeaf(q: Path)
    requires q.Child?
    ensures LeavesBelow(WithPrefixes(EMPTY, q), Root) == {q}
  {
    var m := WithPrefixes(EMPTY, q);
    WithPrefixesMeaning(EMPTY, q);
    RootIsPrefix(q);
    forall r | r in Prefixes(q) && q.IsPrefixOf(r) ensures r == q {
      if r != q {
        PrefixTransitive(r, q, r.parent);
        ParentIsNoExtension(r);
        assert false;
      }
    }
    assert q in m && Root in Prefixes(q);
    assert IsLeaf(m, q);
  }

  lemma DescentOfExample(q: Path)
    requires q == Child(Child(Root, ""), "a")
    ensures Root.IsPrefixOf(q) && Descend("/", Root, q) == "/a"
  {
    RootIsPrefix(q);
    assert q.Names() == ["", "a"] && Root.Names() == [];
    assert NonEmpty(["", "a"]) == ["a"] && Absolute(["a"]) == "/a" && Absolute([]) == "/";
    DescendFromAbsolute(Root, q);
  }

  lemma LeafOfDoubledSlash(m: Store, q: Path)
    requires q == Child(Child(Root, ""), "a") && m == WithPrefixes(EMPTY, q)
    ensures LeafStrings(m, "/", Root) == {"/a"} && q in m
  {
    OneAddOneLeaf(q);
    WithPrefixesMeaning(EMPTY, q);
    DescentOfExample(q);
    assert q in LeavesBelow(m, Root);
  }

  /** The run that consists of addPath("//a"). */
  function DoubledSlash(): seq<Call> {
    CallsOfStrings(EMPTY, Some("//a"), None);
    [Add(Target(Some("//a")), None)]
  }

  /**
   After addPath("//a") alone the trie has an empty name; getLeafs reports the leaf as "/a", and
   adding that to an empty trie does not bring it back.
   */
  lemma DoubledSlashIsNotRebuilt()
    ensures LeafStrings(Run(DoubledSlash()), "/", Root) == {"/a"}
    ensures AddAll(EMPTY, ["/a"]).Keys != Run(DoubledSlash()).Keys
  {
    var q := Child(Child(Root, ""), "a");
    ReadDoubledSlash();
    RunOfOneAdd(DoubledSlash(), q);
    LeafOfDoubledSlash(Run(DoubledSlash()), q);
    RebuiltWithoutDoubledSlash(q);
  }

  lemma RunOfOneAdd(calls: seq<Call>, q: Path)
    requires |calls| == 1 && calls[0] == Add(Some(q), None)
    ensures Run(calls) == WithPrefixes(EMPTY, q)
  {
    assert calls[..0] == [];
  }
}
