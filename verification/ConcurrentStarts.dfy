/** Every trie can be shared: concurrent calls can start on any value that a path trie can have. */
module ConcurrentStarts {
  import opened Wrappers
  import opened Paths
  import opened TrieStore
  import Leafs
  import opened ConcurrentAdds
  import opened ConcurrentAddsProof
  import PathTrie

  lemma {:induction false} OnlyRootStands(s: State, p: Path)
    requires s.root in s.heap && s.heap[s.root].children == map[]
    ensures Standing(s, p) == if p.Root? then Some(s.root) else None
  {
    if p.Child? {
      OnlyRootStands(s, p.parent);
    }
  }

  function Starts(args: map<CallId, Args>, root: NodeId): map<CallId, Progress> {
    map t | t in args :: Progress(Test, 0, Some(root))
  }

  lemma RootAlone(m: Store, args: map<CallId, Args>) returns (s: State)
    requires m.Keys == {Root}
    requires forall t :: t in args ==> args[t].names != []
    ensures Fresh(s) && s.args == args && Represents(s, m)
  {
    s := State(map[0 := Node(map[], None, m[Root])], 0, 1, args, Starts(args, 0), []);
    forall p ensures (p in m <==> Standing(s, p).Some?) && DataOf(s, p) == DataAt(m, p) {
      OnlyRootStands(s, p);
    }
  }

  /** Hanging one more node below an existing one, with the data it is to have. */
  function Extended(s: State, n: NodeId, name: string, data: Option<Data>): State
    requires n in s.heap
  {
    var heap := AddChild(s.heap, n, name, s.nextId);
    s.(heap := heap[s.nextId := heap[s.nextId].(data := data)], nextId := s.nextId + 1)
  }

  /** Writing data moves no node. */
  lemma WriteKeepsPaths(heap: Heap, root: NodeId, nextId: NodeId, n: NodeId, data: Option<Data>, p: Path)
    requires HeapOk(heap, root, nextId) && n in heap
    ensures NodeAt(heap[n := heap[n].(data := data)], root, p) == NodeAt(heap, root, p)
  {
    var after := heap[n := heap[n].(data := data)];
    assert Grows(heap, after) && Grows(after, heap);
    if NodeAt(heap, root, p).Some? {
      NodesStayAtTheirPath(heap, after, root, p);
    } else if NodeAt(after, root, p).Some? {
      NodesStayAtTheirPath(after, heap, root, p);
      assert false;
    }
  }

  lemma ExtendedStands(s: State, q: Path, name: string, data: Option<Data>, p: Path)
    requires HeapOk(s.heap, s.root, s.nextId)
    requires Standing(s, q).Some? && Standing(s, q).value in s.heap && Standing(s, Child(q, name)).None?
    ensures Standing(Extended(s, Standing(s, q).value, name, data), p) ==
            if p == Child(q, name) then Some(s.nextId) else Standing(s, p)
  {
    var n := Standing(s, q).value;
    AddChildKeepsHeap(s.heap, s.root, s.nextId, n, name);
    AddChildPaths(s.heap, s.root, s.nextId, q, name, p);
    WriteKeepsPaths(AddChild(s.heap, n, name, s.nextId), s.root, s.nextId + 1, s.nextId, data, p);
  }

  lemma ExtendedData(s: State, q: Path, name: string, data: Option<Data>, p: Path)
    requires HeapOk(s.heap, s.root, s.nextId)
    requires Standing(s, q).Some? && Standing(s, q).value in s.heap && Standing(s, Child(q, name)).None?
    ensures DataOf(Extended(s, Standing(s, q).value, name, data), p) ==
            if p == Child(q, name) then data else DataOf(s, p)
  {
    ExtendedStands(s, q, name, data, p);
    if Standing(s, p).Some? {
      NodeAtIsInHeap(s.heap, s.root, s.nextId, p);
    }
  }

  lemma ExtendedIsFresh(s: State, n: NodeId, name: string, data: Option<Data>)
    requires Fresh(s) && n in s.heap
    ensures Fresh(Extended(s, n, name, data))
  {
    AddChildKeepsHeap(s.heap, s.root, s.nextId, n, name);
    WriteKeepsHeap(AddChild(s.heap, n, name, s.nextId), s.root, s.nextId + 1, s.nextId, data);
  }

  lemma WithoutLeaf(m: Store, leaf: Path)
    requires PrefixClosed(m) && IsLeaf(m, leaf)
    ensures PrefixClosed(m - {leaf}) && leaf.parent in m - {leaf}
  {
    ParentIsNoExtension(leaf);
    forall p | p in m - {leaf} && p.Child? ensures p.parent in m - {leaf} {
      if p.parent == leaf {
        assert leaf.IsPrefixOf(p);
      }
    }
  }

  /** For every set of paths closed under prefixes there is a heap that holds it, on which any calls can start. */
  lemma {:induction false} EveryStoreHasAStart(m: Store, args: map<CallId, Args>) returns (s: State)
    requires PrefixClosed(m)
    requires forall t :: t in args ==> args[t].names != []
    ensures Fresh(s) && s.args == args && Represents(s, m)
    decreases m.Keys
  {
    if p :| p in m && p != Root {
      var leaf := Leafs.LeafAtOrBelow(m, p);
      WithoutLeaf(m, leaf);
      var before := EveryStoreHasAStart(m - {leaf}, args);
      var n := Standing(before, leaf.parent).value;
      NodeAtIsInHeap(before.heap, before.root, before.nextId, leaf.parent);
      s := Extended(before, n, leaf.name, m[leaf]);
      ExtendedIsFresh(before, n, leaf.name, m[leaf]);
      forall q ensures (q in m <==> Standing(s, q).Some?) && DataOf(s, q) == DataAt(m, q) {
        ExtendedStands(before, leaf.parent, leaf.name, m[leaf], q);
        ExtendedData(before, leaf.parent, leaf.name, m[leaf], q);
      }
    } else {
      s := RootAlone(m, args);
    }
  }

  /** So the laws of concurrent runs hold for calls on a trie of heap objects, whatever made it. */
  lemma EveryTrieCanBeShared(trie: PathTrie.PathTrie, args: map<CallId, Args>) returns (s: State)
    requires trie.Valid()
    requires forall t :: t in args ==> args[t].names != []
    ensures Fresh(s) && s.args == args && Represents(s, trie.store)
  {
    PathTrie.TreeIsPrefixClosed(trie.tree, trie.rootNode, trie.store);
    s := EveryStoreHasAStart(trie.store, args);
  }
}
