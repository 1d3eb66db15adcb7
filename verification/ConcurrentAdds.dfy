/**
 Concurrent addPath calls. Every TrieNode method is synchronized and addPath is not, so a call is
 a sequence of atomic node operations, and calls interleave between them in any way.
 */
module ConcurrentAdds {
  import opened Wrappers
  import opened Paths
  import opened TrieStore

  type NodeId = nat
  type CallId = nat

  datatype Node = Node(children: map<string, NodeId>, parent: Option<NodeId>, data: Option<Data>)

  type Heap = map<NodeId, Node>

  /** The node method a call runs next. */
  datatype Pc =
    | Test      // parent.getChild(part) == null
    | Insert    // parent.addChild(part, new TrieNode(parent))
    | Move      // parent = parent.getChild(part)
    | Write     // parent.setData(data)
    | Finished
    | Crashed   // a method was called on null

  /** The path components a call walks along and the data it brings. */
  datatype Args = Args(names: Names, data: Option<Data>)

  /** How many components a call has walked, and the node in its parent variable. */
  datatype Progress = Progress(pc: Pc, walked: nat, parent: Option<NodeId>)

  /** Nodes are numbered below nextId; finished lists the calls in the order they end. */
  datatype State = State(
    heap: Heap, root: NodeId, nextId: NodeId,
    args: map<CallId, Args>, progress: map<CallId, Progress>, finished: seq<CallId>)

  /** Puts the fresh node only if the name is free; otherwise the node is garbage. */
  function AddChild(heap: Heap, n: NodeId, part: string, fresh_: NodeId): Heap
    requires n in heap
  {
    var made := heap[fresh_ := Node(map[], Some(n), None)];
    if part in heap[n].children then made
    else made[n := heap[n].(children := heap[n].children[part := fresh_])]
  }

  function GetChild(heap: Heap, n: NodeId, part: string): Option<NodeId>
    requires n in heap
  {
    if part in heap[n].children then Some(heap[n].children[part]) else None
  }

  /** The loop test after a move, and the test of the data after the loop. */
  function AfterMove(a: Args, walked: nat): Pc {
    if walked < |a.names| then Test else if a.data.Some? then Write else Finished
  }

  function Become(s: State, t: CallId, c: Progress): State {
    s.(progress := s.progress[t := c], finished := if c.pc == Finished then s.finished + [t] else s.finished)
  }

  /** One atomic step of call t; nothing happens when it has ended. */
  function Step(s: State, t: CallId): State {
    if t !in s.progress || t !in s.args || s.progress[t].pc == Finished || s.progress[t].pc == Crashed then s
    else
      var a, c := s.args[t], s.progress[t];
      if c.parent.None? || c.parent.value !in s.heap || (c.pc != Write && c.walked >= |a.names|) then
        Become(s, t, c.(pc := Crashed))
      else
        var n := c.parent.value;
        match c.pc
        case Test =>
          var child := GetChild(s.heap, n, a.names[c.walked]);
          Become(s, t, c.(pc := if child.None? then Insert else Move))
        case Insert =>
          Become(s.(heap := AddChild(s.heap, n, a.names[c.walked], s.nextId), nextId := s.nextId + 1),
                 t, c.(pc := Move))
        case Move =>
          var child := GetChild(s.heap, n, a.names[c.walked]);
          Become(s, t, Progress(AfterMove(a, c.walked + 1), c.walked + 1, child))
        case Write =>
          Become(s.(heap := s.heap[n := s.heap[n].(data := a.data)]), t, c.(pc := Finished))
        case _ => s
  }

  /** Any interleaving: the schedule says whose step is next. */
  function Execute(s: State, schedule: seq<CallId>): State {
    if schedule == [] then s else Step(Execute(s, schedule[..|schedule| - 1]), schedule[|schedule| - 1])
  }

  function NodeAt(heap: Heap, root: NodeId, p: Path): Option<NodeId> {
    if p.Root? then Some(root)
    else match NodeAt(heap, root, p.parent)
      case None => None
      case Some(n) => if n in heap && p.name in heap[n].children then Some(heap[n].children[p.name]) else None
  }

  function Standing(s: State, p: Path): Option<NodeId> {
    NodeAt(s.heap, s.root, p)
  }

  // ---- the heap stays a tree ----

  /** The child under a name is a node of its own whose parent is the holder. */
  ghost predicate ChildOk(heap: Heap, root: NodeId, n: NodeId, name: string)
    requires n in heap && name in heap[n].children
  {
    var c := heap[n].children[name];
    c in heap && c != root && heap[c].parent == Some(n)
  }

  ghost predicate HeapOk(heap: Heap, root: NodeId, nextId: NodeId) {
    && root in heap
    && (forall n :: n in heap ==> n < nextId)
    && (forall n, name :: n in heap && name in heap[n].children ==> ChildOk(heap, root, n, name))
    && (forall n, x, y ::
          n in heap && x in heap[n].children && y in heap[n].children && heap[n].children[x] == heap[n].children[y]
          ==> x == y)
  }

  lemma {:induction false} NodeAtIsInHeap(heap: Heap, root: NodeId, nextId: NodeId, p: Path)
    requires HeapOk(heap, root, nextId) && NodeAt(heap, root, p).Some?
    ensures NodeAt(heap, root, p).value in heap
    ensures p.Child? ==> NodeAt(heap, root, p).value != root
  {
    if p.Child? {
      NodeAtIsInHeap(heap, root, nextId, p.parent);
      assert ChildOk(heap, root, NodeAt(heap, root, p.parent).value, p.name);
    }
  }

  lemma {:induction false} OnePathPerNode(heap: Heap, root: NodeId, nextId: NodeId, p: Path, q: Path)
    requires HeapOk(heap, root, nextId) && NodeAt(heap, root, p).Some?
    requires NodeAt(heap, root, p) == NodeAt(heap, root, q)
    ensures p == q
  {
    NodeAtIsInHeap(heap, root, nextId, p);
    NodeAtIsInHeap(heap, root, nextId, q);
    if p.Child? && q.Child? {
      var m, n := NodeAt(heap, root, p.parent).value, NodeAt(heap, root, q.parent).value;
      assert ChildOk(heap, root, m, p.name) && ChildOk(heap, root, n, q.name);
      OnePathPerNode(heap, root, nextId, p.parent, q.parent);
    }
  }

  /** Tables only grow. */
  ghost predicate Grows(before: Heap, after: Heap) {
    forall n :: n in before ==>
      n in after && forall name :: name in before[n].children ==>
        name in after[n].children && after[n].children[name] == before[n].children[name]
  }

  lemma {:induction false} NodesStayAtTheirPath(before: Heap, after: Heap, root: NodeId, p: Path)
    requires Grows(before, after) && NodeAt(before, root, p).Some?
    ensures NodeAt(after, root, p) == NodeAt(before, root, p)
  {
    if p.Child? {
      NodesStayAtTheirPath(before, after, root, p.parent);
    }
  }

  /** A child after addChild was there before, or is the fresh node under the free name. */
  lemma ChildrenAfterAdd(heap: Heap, n: NodeId, part: string, fresh_: NodeId, m: NodeId, name: string)
    requires n in heap && fresh_ !in heap
    requires var after := AddChild(heap, n, part, fresh_); m in after && name in after[m].children
    ensures var child := AddChild(heap, n, part, fresh_)[m].children[name];
            if m in heap && name in heap[m].children then child == heap[m].children[name]
            else m == n && name == part && child == fresh_
  {}

  lemma AddedChildOk(heap: Heap, root: NodeId, nextId: NodeId, n: NodeId, part: string, m: NodeId, name: string)
    requires HeapOk(heap, root, nextId) && n in heap
    requires var after := AddChild(heap, n, part, nextId); m in after && name in after[m].children
    ensures ChildOk(AddChild(heap, n, part, nextId), root, m, name)
  {
    ChildrenAfterAdd(heap, n, part, nextId, m, name);
    if m in heap && name in heap[m].children {
      assert ChildOk(heap, root, m, name);
    }
  }

  lemma AddedChildHasOneName(heap: Heap, root: NodeId, nextId: NodeId, n: NodeId, part: string, m: NodeId,
      x: string, y: string)
    requires HeapOk(heap, root, nextId) && n in heap
    requires var after := AddChild(heap, n, part, nextId);
             && m in after && x in after[m].children && y in after[m].children
             && after[m].children[x] == after[m].children[y]
    ensures x == y
  {
    ChildrenAfterAdd(heap, n, part, nextId, m, x);
    ChildrenAfterAdd(heap, n, part, nextId, m, y);
    if m in heap && x in heap[m].children {
      assert ChildOk(heap, root, m, x);
    }
    if m in heap && y in heap[m].children {
      assert ChildOk(heap, root, m, y);
    }
  }

  lemma AddChildGrows(heap: Heap, n: NodeId, part: string, fresh_: NodeId)
    requires n in heap && fresh_ !in heap
    ensures Grows(heap, AddChild(heap, n, part, fresh_))
    ensures part in AddChild(heap, n, part, fresh_)[n].children
  {}

  lemma AddChildKeepsHeap(heap: Heap, root: NodeId, nextId: NodeId, n: NodeId, part: string)
    requires HeapOk(heap, root, nextId) && n in heap
    ensures HeapOk(AddChild(heap, n, part, nextId), root, nextId + 1)
    ensures Grows(heap, AddChild(heap, n, part, nextId))
    ensures part in AddChild(heap, n, part, nextId)[n].children
  {
    var after := AddChild(heap, n, part, nextId);
    AddChildGrows(heap, n, part, nextId);
    forall m, name | m in after && name in after[m].children ensures ChildOk(after, root, m, name) {
      AddedChildOk(heap, root, nextId, n, part, m, name);
    }
    forall m, x, y | m in after && x in after[m].children && y in after[m].children
      && after[m].children[x] == after[m].children[y]
      ensures x == y
    {
      AddedChildHasOneName(heap, root, nextId, n, part, m, x, y);
    }
  }

  /** The only path an addChild can bring into existence is the one it is called for. */
  lemma {:induction false} AddChildPaths(heap: Heap, root: NodeId, nextId: NodeId, a: Path, part: string, p: Path)
    requires HeapOk(heap, root, nextId) && NodeAt(heap, root, a).Some?
    requires NodeAt(heap, root, a).value in heap
    ensures var n := NodeAt(heap, root, a).value;
            var now, before := NodeAt(AddChild(heap, n, part, nextId), root, p), NodeAt(heap, root, p);
            now == if before.Some? then before else if p == Child(a, part) then Some(nextId) else None
  {
    if p.Child? {
      var n := NodeAt(heap, root, a).value;
      AddChildPaths(heap, root, nextId, a, part, p.parent);
      var m := NodeAt(heap, root, p.parent);
      if m.Some? {
        NodeAtIsInHeap(heap, root, nextId, p.parent);
        if m.value == n {
          OnePathPerNode(heap, root, nextId, a, p.parent);
        }
      }
    }
  }
}
