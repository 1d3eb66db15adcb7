/** The trie itself: nodes with child tables and parent references, updated in place. */
module PathTrie {
  import opened Wrappers
  import opened Paths
  import opened TrieStore
  import opened Leafs

  class TrieNode {
    var children: map<string, TrieNode>
    var parent: TrieNode?
    var data: Option<Data>

    constructor (parent: TrieNode?)
      ensures children == map[] && this.parent == parent && data == None
    {
      children, this.parent, data := map[], parent, None;
    }

    method GetParent() returns (p: TrieNode?)
      ensures p == parent
    {
      p := parent;
    }

    method SetParent(p: TrieNode?)
      modifies this`parent
      ensures parent == p
    {
      parent := p;
    }

    method GetData() returns (d: Option<Data>)
      ensures d == data
    {
      d := data;
    }

    method SetData(d: Option<Data>)
      modifies this`data
      ensures data == d
    {
      data := d;
    }

    /** Puts the child only if the name is free. */
    method AddChild(name: string, node: TrieNode)
      modifies this`children
      ensures children == if name in old(children) then old(children) else old(children)[name := node]
    {
      if name in children {
        return;
      }
      children := children[name := node];
    }

    /** The child leaves the table and loses its parent. */
    method DeleteChild(name: string)
      modifies this`children, (if name in children then {children[name]} else {})`parent
      ensures children == old(children) - {name}
      ensures name in old(children) ==> old(children)[name].parent == null
    {
      if name !in children {
        assert children == children - {name};
        return;
      }
      var childNode := children[name];
      childNode.SetParent(null);
      children := children - {name};
    }

    method GetChild(name: string) returns (node: TrieNode?)
      ensures node == if name in children then children[name] else null
    {
      if name !in children {
        node := null;
      } else {
        node := children[name];
      }
    }

    /** The child names, in no particular order. */
    method GetChildren() returns (names: set<string>)
      ensures names == children.Keys
    {
      names := children.Keys;
    }

    method IsLeafNode() returns (b: bool)
      ensures b <==> children == map[] && parent != null
    {
      b := |children| == 0 && parent != null;
    }
  }

  /** What stands at a path: a node, and what its fields hold. */
  datatype Spot = Spot(node: TrieNode, children: map<string, TrieNode>, parent: TrieNode?)

  /** The links of a trie's heap as a value. */
  type Tree = map<Path, Spot>

  /**
   The node at p sits in the table of the node one name above it, which is its parent; the root
   has none. What sits in the table of p stands one name below p.
   */
  ghost predicate Linked(t: Tree, p: Path)
    requires p in t
  {
    && (if p.Root? then t[p].parent == null else
          && p.parent in t && t[p].parent == t[p.parent].node
          && p.name in t[p.parent].children && t[p.parent].children[p.name] == t[p].node)
    && (forall name {:trigger name in t[p].children} :: name in t[p].children ==> Child(p, name) in t)
  }

  ghost predicate Apart(t: Tree, p: Path, q: Path)
    requires p in t && q in t
  {
    t[p].node != t[q].node
  }

  /** The nodes form one tree below root: every node is linked, and no two paths share one. */
  ghost predicate IsTree(t: Tree, root: TrieNode) {
    && Root in t && t[Root].node == root
    && (forall p, q {:trigger Apart(t, p, q)} :: p in t && q in t && p != q ==> Apart(t, p, q))
    && (forall p {:trigger Linked(t, p)} :: p in t ==> Linked(t, p))
  }

  function Attach(t: Tree, p: Path, name: string, node: TrieNode): Tree
    requires p in t
  {
    t[p := t[p].(children := t[p].children[name := node])]
     [Child(p, name) := Spot(node, map[], t[p].node)]
  }

  lemma AttachIsNew(t: Tree, root: TrieNode, p: Path, name: string)
    requires IsTree(t, root) && p in t && name !in t[p].children
    ensures Child(p, name) !in t
  {
    assert Child(p, name) in t ==> Linked(t, Child(p, name));
  }

  lemma AttachKeepsLinked(t: Tree, root: TrieNode, p: Path, name: string, node: TrieNode, q: Path)
    requires IsTree(t, root) && p in t && name !in t[p].children
    requires q in Attach(t, p, name, node)
    ensures Linked(Attach(t, p, name, node), q)
  {
    AttachIsNew(t, root, p, name);
    assert q in t ==> Linked(t, q);
  }

  lemma AttachKeepsApart(t: Tree, root: TrieNode, p: Path, name: string, node: TrieNode, q: Path, r: Path)
    requires IsTree(t, root) && p in t && name !in t[p].children
    requires forall u :: u in t ==> t[u].node != node
    requires q in Attach(t, p, name, node) && r in Attach(t, p, name, node) && q != r
    ensures Apart(Attach(t, p, name, node), q, r)
  {
    AttachIsNew(t, root, p, name);
    assert q in t && r in t ==> Apart(t, q, r);
  }

  lemma AttachKeepsTree(t: Tree, root: TrieNode, p: Path, name: string, node: TrieNode)
    requires IsTree(t, root) && p in t && name !in t[p].children
    requires forall q :: q in t ==> t[q].node != node
    ensures Child(p, name) !in t
    ensures IsTree(Attach(t, p, name, node), root)
  {
    AttachIsNew(t, root, p, name);
    var after := Attach(t, p, name, node);
    forall q | q in after ensures Linked(after, q) {
      AttachKeepsLinked(t, root, p, name, node, q);
    }
    forall q, r | q in after && r in after && q != r ensures Apart(after, q, r) {
      AttachKeepsApart(t, root, p, name, node, q, r);
    }
  }

  /** The node at p leaves the table above it, and its whole subtree leaves the tree. */
  function Detach(t: Tree, p: Path): Tree
    requires p.Child?
  {
    map q | q in t && !p.IsPrefixOf(q) ::
      if q == p.parent then t[q].(children := t[q].children - {p.name}) else t[q]
  }

  lemma DetachKeepsTree(t: Tree, root: TrieNode, p: Path)
    requires IsTree(t, root) && p in t && p.Child?
    ensures IsTree(Detach(t, p), root)
    ensures p.parent in Detach(t, p)
  {
    var after := Detach(t, p);
    assert Linked(t, p);
    ParentIsNoExtension(p);
    forall q | q in after ensures Linked(after, q) {
      assert Linked(t, q);
    }
    forall q, r | q in after && r in after && q != r ensures Apart(after, q, r) {
      assert Apart(t, q, r);
    }
  }

  lemma TreeIsPrefixClosed(t: Tree, root: TrieNode, m: Store)
    requires IsTree(t, root) && m.Keys == t.Keys
    ensures PrefixClosed(m)
  {
    assert forall p :: p in t ==> Linked(t, p);
  }

  lemma {:induction false} SomethingHangsBelowRoot(t: Tree, root: TrieNode, p: Path)
    requires IsTree(t, root) && p in t && p.Child?
    ensures t[Root].children != map[]
  {
    assert Linked(t, p);
    if p.parent.Child? {
      SomethingHangsBelowRoot(t, root, p.parent);
    }
  }

  lemma ChildrenByPath(t: Tree, root: TrieNode, p: Path)
    requires IsTree(t, root) && p in t
    ensures forall name :: name in t[p].children <==> Child(p, name) in t
  {
    assert Linked(t, p);
    forall name | Child(p, name) in t ensures name in t[p].children {
      assert Linked(t, Child(p, name));
    }
  }

  lemma OthersApart(t: Tree, root: TrieNode, p: Path)
    requires IsTree(t, root) && p in t
    ensures forall q :: q in t && q != p ==> t[q].node != t[p].node
  {
    assert forall q :: q in t && q != p ==> Apart(t, p, q);
  }

  lemma {:induction false} SiblingsDiverge(p: Path, x: string, y: string, q: Path)
    requires Child(p, x).IsPrefixOf(q) && Child(p, y).IsPrefixOf(q)
    ensures x == y
  {
    ParentIsNoExtension(Child(p, x));
    ParentIsNoExtension(Child(p, y));
    if q != Child(p, x) && q != Child(p, y) {
      SiblingsDiverge(p, x, y, q.parent);
    }
  }

  /** No node is at or below two children of the same node. */
  lemma SubtreesAreDisjoint(t: Tree, root: TrieNode, p: Path, x: string, y: string, q: Path, r: Path)
    requires IsTree(t, root) && q in t && r in t && x != y
    requires Child(p, x).IsPrefixOf(q) && Child(p, y).IsPrefixOf(r)
    ensures t[q].node != t[r].node
  {
    if q == r {
      SiblingsDiverge(p, x, y, q);
    } else {
      assert Apart(t, q, r);
    }
  }

  /** The HashSet that getLeafs hands down its recursion. */
  class StringSet {
    var elements: set<string>

    constructor ()
      ensures elements == {}
    {
      elements := {};
    }

    method Add(s: string)
      modifies this
      ensures elements == old(elements) + {s}
    {
      elements := elements + {s};
    }
  }

  class PathTrie {
    const rootNode: TrieNode
    /** What stands at each existing path. */
    ghost var tree: Tree
    /** The abstract value. */
    ghost var store: Store
    ghost var repr: set<TrieNode>

    ghost predicate Valid()
      reads this, repr
    {
      && IsTree(tree, rootNode)
      && store.Keys == tree.Keys
      && forall p {:trigger Stands(p)} :: p in tree ==> Stands(p)
    }

    /** The node at p is in the footprint, and its fields hold what the ghost state says. */
    ghost predicate Stands(p: Path)
      requires p in tree && p in store
      reads this, repr
    {
      var s := tree[p];
      && s.node in repr
      && s.node.children == s.children && s.node.parent == s.parent && s.node.data == store[p]
    }

    constructor ()
      ensures Valid() && fresh(rootNode) && fresh(repr)
      ensures store == EMPTY
    {
      rootNode := new TrieNode(null);
      new;
      tree := map[Root := Spot(rootNode, map[], null)];
      store, repr := EMPTY, {rootNode};
    }

    /** parent.addChild(part, node), where the parent stands at p and the name is free. */
    method AddMissing(parent: TrieNode, part: string, node: TrieNode, ghost p: Path)
      requires Valid() && p in tree && tree[p].node == parent
      requires part !in parent.children
      requires node !in repr && node.children == map[] && node.parent == parent && node.data == None
      modifies this`tree, this`store, this`repr, parent`children
      ensures Valid() && repr == old(repr) + {node}
      ensures Child(p, part) in tree && tree[Child(p, part)].node == node && p in tree
      ensures Child(p, part) !in old(store) && store == old(store)[Child(p, part) := None]
    {
      assert Stands(p);
      ghost var was := tree;
      forall q | q in was ensures was[q].node != node {
        assert Stands(q);
      }
      AttachKeepsTree(was, rootNode, p, part, node);
      OthersApart(was, rootNode, p);
      parent.AddChild(part, node);
      tree, repr := Attach(was, p, part, node), repr + {node};
      store := store[Child(p, part) := None];
      forall q | q in tree ensures Stands(q) {
        assert q in was ==> old(Stands(q));
      }
    }

    /** parent.setData(data), at a node that stands at p. */
    method WriteData(node: TrieNode, data: Option<Data>, ghost p: Path)
      requires Valid() && p in tree && tree[p].node == node
      modifies this`store, node`data
      ensures Valid() && store == old(store)[p := data]
    {
      OthersApart(tree, rootNode, p);
      node.SetData(data);
      store := store[p := data];
      forall q | q in tree ensures Stands(q) {
        assert old(Stands(q));
      }
    }

    /** The body of addPath's loop: makes sure there is a child, then moves on to it. */
    method StepInto(parent: TrieNode, part: string, ghost p: Path) returns (next: TrieNode)
      requires Valid() && p in tree && tree[p].node == parent
      modifies this, parent`children
      ensures Valid() && fresh(repr - old(repr))
      ensures Child(p, part) in tree && next == tree[Child(p, part)].node
      ensures store == if Child(p, part) in old(tree) then old(store) else old(store)[Child(p, part) := None]
    {
      assert Stands(p) && Linked(tree, p);
      assert Child(p, part) in tree ==> Linked(tree, Child(p, part));
      var child := parent.GetChild(part);
      if child == null {
        var node := new TrieNode(parent);
        AddMissing(parent, part, node, p);
        assert Stands(p) && Linked(tree, Child(p, part));
      }
      child := parent.GetChild(part);
      next := child;
    }

    /** addPath's loop over the path components, the first of which it skips. */
    method AddComponents(pathComponents: seq<string>) returns (parent: TrieNode)
      requires Valid() && |pathComponents| > 1
      modifies this, repr
      ensures Valid() && fresh(repr - old(repr))
      ensures At(pathComponents[1..]) in tree && parent == tree[At(pathComponents[1..])].node
      ensures store == WithPrefixes(old(store), At(pathComponents[1..]))
    {
      parent := rootNode;
      ghost var names, p, m := pathComponents[1..], Root, store;
      var i := 1;
      while i < |pathComponents|
        invariant 1 <= i <= |pathComponents|
        invariant Valid() && fresh(repr - old(repr))
        invariant p == At(names[..i - 1]) && p in tree && parent == tree[p].node
        invariant store == WithPrefixes(m, p)
      {
        assert Stands(p);
        parent := StepInto(parent, pathComponents[i], p);
        p := Child(p, pathComponents[i]);
        AtStep(names, i - 1);
        i := i + 1;
      }
      assert names[..i - 1] == names;
    }

    method AddPath(path: Option<string>, data: Option<Data>) returns (outcome: Outcome)
      requires Valid()
      modifies this, repr
      ensures Valid() && fresh(repr - old(repr))
      ensures (store, outcome) == TrieStore.AddPath(old(store), path, data)
    {
      if path.None? {
        return Done;
      }
      var pathComponents := JavaSplit(path.value);
      if |pathComponents| <= 1 {
        return InvalidPath;
      }
      var parent := AddComponents(pathComponents);
      if data.Some? {
        assert Stands(At(pathComponents[1..]));
        WriteData(parent, data, At(pathComponents[1..]));
      }
      return Done;
    }

    /** realParent.deleteChild(part), where the child stands at p. */
    method DetachChild(realParent: TrieNode, part: string, ghost p: Path)
      requires Valid() && p in tree && p.Child? && p.name == part
      requires p.parent in tree && tree[p.parent].node == realParent
      modifies this`tree, this`store, realParent`children, tree[p].node`parent
      ensures Valid() && store == Deleted(old(store), p)
      ensures p.parent in tree && tree[p.parent].children == old(tree)[p.parent].children - {part}
    {
      ghost var was := tree;
      assert Linked(was, p) && Stands(p) && Stands(p.parent);
      DetachKeepsTree(was, rootNode, p);
      OthersApart(was, rootNode, p);
      OthersApart(was, rootNode, p.parent);
      realParent.DeleteChild(part);
      tree, store := Detach(was, p), Deleted(store, p);
      forall q | q in tree ensures Stands(q) {
        assert old(Stands(q));
      }
    }

    method DeletePath(path: Option<string>) returns (outcome: Outcome)
      requires Valid()
      modifies this, repr
      ensures Valid() && repr == old(repr)
      ensures (store, outcome) == TrieStore.DeletePath(old(store), path)
    {
      if path.None? {
        return Done;
      }
      var pathComponents := JavaSplit(path.value);
      if |pathComponents| <= 1 {
        return InvalidPath;
      }
      var parent := Walk(pathComponents);
      ghost var p := At(pathComponents[1..]);
      if parent == null {
        TreeIsPrefixClosed(tree, rootNode, store);
        DeletedMissing(store, p, p);
        return Done;
      }
      assert Linked(tree, p) && Stands(p) && Stands(p.parent);
      var realParent := parent.GetParent();
      DetachChild(realParent, pathComponents[|pathComponents| - 1], p);
      return Done;
    }

    /** The loop that deletePath and getNode share: null as soon as a component is missing. */
    method Walk(pathComponents: seq<string>) returns (parent: TrieNode?)
      requires Valid() && |pathComponents| > 1
      ensures var p := At(pathComponents[1..]);
              if p in tree then parent == tree[p].node else parent == null
    {
      parent := rootNode;
      ghost var names, p := pathComponents[1..], Root;
      var i := 1;
      while i < |pathComponents|
        invariant 1 <= i <= |pathComponents|
        invariant p == At(names[..i - 1]) && p in tree && parent == tree[p].node
      {
        var part := pathComponents[i];
        assert Linked(tree, p) && Stands(p);
        AtStep(names, i - 1);
        var child := parent.GetChild(part);
        if child == null {
          TreeIsPrefixClosed(tree, rootNode, store);
          AtIsMonotone(names, i);
          assert Child(p, part) in tree ==> Linked(tree, Child(p, part));
          if At(names) in store {
            PrefixExists(store, Child(p, part), At(names));
            assert false;
          }
          return null;
        }
        p := Child(p, part);
        assert Linked(tree, p);
        child := parent.GetChild(part);
        parent := child;
        i := i + 1;
      }
      assert names[..i - 1] == names;
    }

    method GetNode(path: Option<string>) returns (node: TrieNode?, outcome: Outcome)
      requires Valid()
      ensures (match FindPath(store, path)
               case (None, o) => node == null && outcome == o
               case (Some(p), o) => node == tree[p].node && outcome == o)
    {
      if path.None? {
        return null, Done;
      }
      if path.value == "/" {
        return rootNode, Done;
      }
      var pathComponents := JavaSplit(path.value);
      if |pathComponents| <= 1 {
        return null, InvalidPath;
      }
      node := Walk(pathComponents);
      outcome := Done;
    }

    method GetNodeData(path: Option<string>) returns (data: Option<Data>, outcome: Outcome)
      requires Valid()
      ensures (match FindPath(store, path)
               case (None, o) => data == None && outcome == o
               case (Some(p), o) => data == store[p] && outcome == o)
    {
      var node;
      node, outcome := GetNode(path);
      if node != null {
        assert Stands(FindPath(store, path).0.value);
        data := node.GetData();
      } else {
        data := None;
      }
    }

    method ExistsNode(path: Option<string>) returns (exists_: bool, outcome: Outcome)
      requires Valid()
      ensures (exists_, outcome) == (FindPath(store, path).0.Some?, FindPath(store, path).1)
    {
      var node;
      node, outcome := GetNode(path);
      exists_ := node != null;
    }

    method Clear()
      requires Valid()
      modifies this, repr
      ensures Valid() && repr == old(repr)
      ensures store == Cleared(old(store))
    {
      assert Stands(Root);
      var names := rootNode.GetChildren();
      ghost var m := store;
      assert names == tree[Root].children.Keys;
      while names != {}
        invariant Valid() && repr == old(repr)
        invariant names == tree[Root].children.Keys
        invariant forall q :: q in store ==> q in m && store[q] == m[q]
        decreases names
      {
        var child :| child in names;
        assert Linked(tree, Root) && Stands(Child(Root, child));
        DetachChild(rootNode, child, Child(Root, child));
        names := names - {child};
      }
      forall q | q in store ensures q.Root? {
        if q.Child? {
          SomethingHangsBelowRoot(tree, rootNode, q);
        }
      }
    }

    /** The private getLeafs: adds the leaves at or below the node, which stands at p. */
    method CollectLeafs(path: string, node: TrieNode, leafs: StringSet, ghost p: Path)
      requires Valid() && p in tree && tree[p].node == node
      modifies leafs
      ensures leafs.elements == old(leafs.elements) + LeafStrings(store, path, p)
      decreases Extensions(store, p)
    {
      TreeIsPrefixClosed(tree, rootNode, store);
      LeafHasNoChild(store, p);
      ChildrenByPath(tree, rootNode, p);
      assert Stands(p) && Linked(tree, p);
      var isLeaf := node.IsLeafNode();
      if isLeaf {
        LeafStringsOfLeaf(store, path, p);
        leafs.Add(path);
      } else {
        LeafStringsOfChildren(store, path, p, node.children.Keys);
        CollectLeafsOfChildren(path, node, leafs, p);
      }
    }

    /** The forEach over the children of a node that is no leaf. */
    method CollectLeafsOfChildren(path: string, node: TrieNode, leafs: StringSet, ghost p: Path)
      requires Valid() && p in tree && tree[p].node == node
      modifies leafs
      ensures leafs.elements == old(leafs.elements) + LeafStringsVia(store, path, p, node.children.Keys)
      decreases Extensions(store, p), 0
    {
      assert Stands(p) && Linked(tree, p);
      var names := node.children.Keys;
      ghost var done: set<string> := {};
      while names != {}
        invariant names + done == node.children.Keys
        invariant leafs.elements == old(leafs.elements) + LeafStringsVia(store, path, p, done)
        decreases names
      {
        var cp :| cp in names;
        assert Linked(tree, Child(p, cp));
        ChildHasFewerExtensions(store, p, cp);
        CollectLeafs(PathsGet(path, cp), node.children[cp], leafs, Child(p, cp));
        names, done := names - {cp}, done + {cp};
      }
    }

    method GetLeafs(path: Option<string>) returns (leafs: StringSet?, outcome: Outcome)
      requires Valid()
      ensures (match FindPath(store, path)
               case (None, o) => leafs == null && outcome == o
               case (Some(p), o) => outcome == o && leafs != null && fresh(leafs)
                                    && leafs.elements == LeafStrings(store, path.value, p))
    {
      var node;
      node, outcome := GetNode(path);
      if node == null {
        return null, outcome;
      }
      leafs := new StringSet();
      CollectLeafs(path.value, node, leafs, FindPath(store, path).0.value);
    }
  }
}
