/**
 Every interleaving of addPath calls: no call meets a null node, no node ever leaves its path,
 and the outcome is that of running the calls one after another.
 */
module ConcurrentAddsProof {
  import opened Wrappers
  import opened Paths
  import opened TrieStore
  import opened ConcurrentAdds

  /** Call t stands at the path it has walked, and after a successful test its child is there. */
  ghost predicate CallOk(s: State, t: CallId)
    requires t in s.progress
  {
    && t in s.args && |s.args[t].names| > 0
    && var a, c := s.args[t], s.progress[t];
      && c.pc != Crashed && c.parent.Some? && c.parent.value in s.heap
      && c.walked <= |a.names|
      && Standing(s, At(a.names[..c.walked])) == c.parent
      && (c.pc.Write? || c.pc.Finished? <==> c.walked == |a.names|)
      && (c.pc.Write? ==> a.data.Some?)
      && (c.pc.Move? ==> a.names[c.walked] in s.heap[c.parent.value].children)
  }

  ghost predicate Inv(s: State) {
    && HeapOk(s.heap, s.root, s.nextId)
    && s.args.Keys == s.progress.Keys
    && (forall t {:trigger CallOk(s, t)} :: t in s.progress ==> CallOk(s, t))
    && OrderOk(s.progress, s.finished)
  }

  /** Each call that has ended is listed once. */
  ghost predicate OrderOk(progress: map<CallId, Progress>, finished: seq<CallId>) {
    && (forall t :: t in finished <==> t in progress && progress[t].pc == Finished)
    && (forall i, j :: 0 <= i < j < |finished| ==> finished[i] != finished[j])
  }

  lemma OrderStaysOk(progress: map<CallId, Progress>, finished: seq<CallId>, t: CallId, c: Progress)
    requires OrderOk(progress, finished) && t in progress && progress[t].pc != Finished
    ensures OrderOk(progress[t := c], if c.pc == Finished then finished + [t] else finished)
  {}

  /** No call has begun. */
  ghost predicate Fresh(s: State) {
    && HeapOk(s.heap, s.root, s.nextId)
    && s.args.Keys == s.progress.Keys && s.finished == []
    && forall t :: t in s.args ==> s.args[t].names != [] && s.progress[t] == Progress(Test, 0, Some(s.root))
  }

  lemma FreshIsInv(s: State)
    requires Fresh(s)
    ensures Inv(s)
  {
    forall t | t in s.progress ensures CallOk(s, t) {
      assert s.args[t].names[..0] == [];
    }
  }

  /** What a step of t leaves alone for another call, or for t until its record is replaced. */
  lemma OtherCallStaysOk(before: State, after: State, u: CallId)
    requires u in before.progress && CallOk(before, u)
    requires u in after.progress && after.progress[u] == before.progress[u]
    requires after.args == before.args && after.root == before.root
    requires Grows(before.heap, after.heap)
    ensures CallOk(after, u)
  {
    NodesStayAtTheirPath(before.heap, after.heap, before.root, At(before.args[u].names[..before.progress[u].walked]));
  }

  lemma CallIsOk(s: State, t: CallId)
    requires Inv(s) && t in s.progress
    ensures CallOk(s, t)
  {}

  lemma StepGrows(s: State, t: CallId)
    requires Inv(s)
    ensures Grows(s.heap, Step(s, t).heap)
    ensures HeapOk(Step(s, t).heap, s.root, Step(s, t).nextId)
    ensures Step(s, t).root == s.root && Step(s, t).args == s.args
    ensures forall u :: u in s.progress && u != t ==>
              u in Step(s, t).progress && Step(s, t).progress[u] == s.progress[u]
  {
    if t in s.progress {
      CallIsOk(s, t);
      var a, c := s.args[t], s.progress[t];
      match c.pc
      case Insert => AddChildKeepsHeap(s.heap, s.root, s.nextId, c.parent.value, a.names[c.walked]);
      case Write => WriteKeepsHeap(s.heap, s.root, s.nextId, c.parent.value, a.data);
      case _ =>
    }
  }

  lemma WriteKeepsHeap(heap: Heap, root: NodeId, nextId: NodeId, n: NodeId, data: Option<Data>)
    requires HeapOk(heap, root, nextId) && n in heap
    ensures HeapOk(heap[n := heap[n].(data := data)], root, nextId)
    ensures Grows(heap, heap[n := heap[n].(data := data)])
  {
    var after := heap[n := heap[n].(data := data)];
    forall m, name | m in after && name in after[m].children ensures ChildOk(after, root, m, name) {
      assert ChildOk(heap, root, m, name);
    }
  }

  /** The record of the moving call itself. */
  lemma SteppingCallStaysOk(s: State, t: CallId)
    requires Inv(s) && t in s.progress
    ensures t in Step(s, t).progress && CallOk(Step(s, t), t)
  {
    assert CallOk(s, t);
    StepGrows(s, t);
    var a, c := s.args[t], s.progress[t];
    var here := At(a.names[..c.walked]);
    NodesStayAtTheirPath(s.heap, Step(s, t).heap, s.root, here);
    match c.pc
    case Insert =>
      AddChildKeepsHeap(s.heap, s.root, s.nextId, c.parent.value, a.names[c.walked]);
    case Move =>
      AtStep(a.names, c.walked);
      NodeAtIsInHeap(s.heap, s.root, s.nextId, At(a.names[..c.walked + 1]));
    case _ =>
  }

  lemma StepKeepsCallsOk(s: State, t: CallId, u: CallId)
    requires Inv(s) && t in s.progress && u in Step(s, t).progress
    ensures CallOk(Step(s, t), u)
  {
    StepGrows(s, t);
    if u == t {
      SteppingCallStaysOk(s, t);
    } else {
      StepAddsNoCall(s, t);
      CallIsOk(s, u);
      OtherCallStaysOk(s, Step(s, t), u);
    }
  }

  lemma StepAddsNoCall(s: State, t: CallId)
    requires t in s.progress
    ensures Step(s, t).progress.Keys == s.progress.Keys
  {}

  lemma StepKeepsOrder(s: State, t: CallId)
    requires Inv(s)
    ensures OrderOk(Step(s, t).progress, Step(s, t).finished)
  {
    if t in s.progress && s.progress[t].pc != Finished {
      CallIsOk(s, t);
      OrderStaysOk(s.progress, s.finished, t, Step(s, t).progress[t]);
    }
  }

  lemma StepKeepsInv(s: State, t: CallId)
    requires Inv(s)
    ensures Inv(Step(s, t))
  {
    if t in s.progress {
      StepGrows(s, t);
      StepKeepsOrder(s, t);
      StepAddsNoCall(s, t);
      forall u | u in Step(s, t).progress ensures CallOk(Step(s, t), u) {
        StepKeepsCallsOk(s, t, u);
      }
    }
  }

  // ---- what exists and what data it has, at every moment ----

  /** The path a call has made sure of so far. */
  function Reached(a: Args, c: Progress): Path {
    var k := if c.pc == Move then c.walked + 1 else c.walked;
    At(a.names[..if k <= |a.names| then k else |a.names|])
  }

  ghost predicate Claims(s: State, t: CallId, p: Path) {
    t in s.progress && t in s.args && p.IsPrefixOf(Reached(s.args[t], s.progress[t]))
  }

  ghost predicate Claimed(s: State, p: Path) {
    exists t :: Claims(s, t, p)
  }

  function DataOf(s: State, p: Path): Option<Data> {
    var n := Standing(s, p);
    if n.Some? && n.value in s.heap then s.heap[n.value].data else None
  }

  /** The trie in the heap has exactly the paths and data of m. */
  ghost predicate Represents(s: State, m: Store) {
    forall p :: (p in m <==> Standing(s, p).Some?) && DataOf(s, p) == DataAt(m, p)
  }

  /** The same calls run one after another, in the given order. */
  function Sequential(m: Store, args: map<CallId, Args>, order: seq<CallId>): Store
    requires forall t :: t in order ==> t in args
  {
    if order == [] then m
    else
      var last := args[order[|order| - 1]];
      Added(Sequential(m, args, order[..|order| - 1]), At(last.names), last.data)
  }

  lemma {:induction false} SequentialKeys(m: Store, args: map<CallId, Args>, order: seq<CallId>, p: Path)
    requires Root in m
    requires forall t :: t in order ==> t in args
    ensures Root in Sequential(m, args, order)
    ensures p in Sequential(m, args, order) <==>
            p in m || exists t :: t in order && p.IsPrefixOf(At(args[t].names))
  {
    if order != [] {
      var init, t := order[..|order| - 1], order[|order| - 1];
      SequentialKeys(m, args, init, p);
      AddedKeys(Sequential(m, args, init), At(args[t].names), args[t].data, p);
      assert order == init + [t];
    }
  }

  lemma AddedKeys(m: Store, q: Path, data: Option<Data>, p: Path)
    requires Root in m
    ensures Root in Added(m, q, data)
    ensures p in Added(m, q, data) <==> p in m || p.IsPrefixOf(q)
    ensures DataAt(Added(m, q, data), p) == if p == q && data.Some? then data else DataAt(m, p)
  {
    WithPrefixesMeaning(m, q);
  }

  lemma {:induction false} PrefixStands(s: State, p: Path, q: Path)
    requires Standing(s, q).Some? && p.IsPrefixOf(q)
    ensures Standing(s, p).Some?
  {
    if p != q {
      PrefixStands(s, p, q.parent);
    }
  }

  /** In every reachable state a claimed path exists. */
  lemma ClaimedStands(s: State, t: CallId, p: Path)
    requires Inv(s) && Claims(s, t, p)
    ensures Standing(s, p).Some?
  {
    CallIsOk(s, t);
    var a, c := s.args[t], s.progress[t];
    if c.pc == Move {
      AtStep(a.names, c.walked);
    }
    PrefixStands(s, p, Reached(a, c));
  }

  /** What is reached with the next component in hand: what was reached, or one name more. */
  lemma ReachedByNextName(a: Args, c: Progress)
    requires c.walked < |a.names| && c.pc != Move
    ensures Reached(a, c).IsPrefixOf(Reached(a, c.(pc := Move)))
  {
    AtStep(a.names, c.walked);
  }

  lemma ReachedGrows(s: State, t: CallId)
    requires Inv(s) && t in s.progress
    ensures t in Step(s, t).progress
    ensures Reached(s.args[t], s.progress[t]).IsPrefixOf(Reached(s.args[t], Step(s, t).progress[t]))
  {
    CallIsOk(s, t);
    var a, c := s.args[t], s.progress[t];
    if c.pc == Test || c.pc == Insert {
      ReachedByNextName(a, c);
    }
  }

  lemma ClaimsStay(s: State, t: CallId, p: Path)
    requires Inv(s) && Claimed(s, p)
    ensures Claimed(Step(s, t), p)
  {
    var u :| Claims(s, u, p);
    StepGrows(s, t);
    if t in s.progress {
      ReachedGrows(s, t);
      if u == t {
        PrefixTransitive(p, Reached(s.args[t], s.progress[t]), Reached(s.args[t], Step(s, t).progress[t]));
      }
    }
    assert Claims(Step(s, t), u, p);
  }

  lemma InsertMakesPath(s: State, t: CallId, p: Path)
    requires Inv(s) && t in s.progress && s.progress[t].pc == Insert && Standing(s, p).None?
    requires Standing(Step(s, t), p).Some?
    ensures Claimed(Step(s, t), p) && DataOf(Step(s, t), p) == None
  {
    CallIsOk(s, t);
    var a, c := s.args[t], s.progress[t];
    AddChildPaths(s.heap, s.root, s.nextId, At(a.names[..c.walked]), a.names[c.walked], p);
    AtStep(a.names, c.walked);
    assert Claims(Step(s, t), t, p);
  }

  lemma WriteMakesNoPath(s: State, t: CallId, p: Path)
    requires Inv(s) && t in s.progress && s.progress[t].pc == Write
    ensures Standing(Step(s, t), p) == Standing(s, p)
  {
    CallIsOk(s, t);
    StepGrows(s, t);
    assert Grows(Step(s, t).heap, s.heap);
    if Standing(s, p).Some? {
      NodesStayAtTheirPath(s.heap, Step(s, t).heap, s.root, p);
    } else if Standing(Step(s, t), p).Some? {
      NodesStayAtTheirPath(Step(s, t).heap, s.heap, s.root, p);
      assert false;
    }
  }

  lemma OtherStepsKeepHeap(s: State, t: CallId)
    requires t in s.progress ==> !s.progress[t].pc.Insert? && !s.progress[t].pc.Write?
    ensures Step(s, t).heap == s.heap && Step(s, t).root == s.root
  {}

  lemma InsertEndsNoCall(s: State, t: CallId)
    requires Inv(s) && t in s.progress && s.progress[t].pc == Insert
    ensures Step(s, t).finished == s.finished
  {
    CallIsOk(s, t);
  }

  /** A step brings at most one path into existence, claimed by its call and without data. */
  lemma NewPath(s: State, t: CallId, p: Path)
    requires Inv(s)
    ensures Standing(s, p).Some? ==> Standing(Step(s, t), p) == Standing(s, p)
    ensures Standing(s, p).None? && Standing(Step(s, t), p).Some? ==>
              && Claimed(Step(s, t), p) && DataOf(Step(s, t), p) == None && Step(s, t).finished == s.finished
  {
    StepGrows(s, t);
    if Standing(s, p).Some? {
      NodesStayAtTheirPath(s.heap, Step(s, t).heap, s.root, p);
    } else if Standing(Step(s, t), p).Some? {
      if t in s.progress && s.progress[t].pc == Insert {
        InsertMakesPath(s, t, p);
        InsertEndsNoCall(s, t);
      } else if t in s.progress && s.progress[t].pc == Write {
        WriteMakesNoPath(s, t, p);
      } else {
        OtherStepsKeepHeap(s, t);
      }
    }
  }

  /** A step changes the data of an existing path only if it is the write of a call to that path. */
  lemma StepData(s: State, t: CallId, p: Path)
    requires Inv(s) && Standing(s, p).Some?
    ensures DataOf(Step(s, t), p) ==
            if t in s.progress && s.progress[t].pc == Write && p == At(s.args[t].names) then s.args[t].data
            else DataOf(s, p)
  {
    NewPath(s, t, p);
    NodeAtIsInHeap(s.heap, s.root, s.nextId, p);
    if t in s.progress {
      CallIsOk(s, t);
      var a, c := s.args[t], s.progress[t];
      if c.pc == Write {
        assert a.names[..|a.names|] == a.names;
        if Standing(s, p) == c.parent {
          OnePathPerNode(s.heap, s.root, s.nextId, p, At(a.names));
        }
      } else if c.pc == Insert {
        assert Standing(s, p).value != s.nextId;
      } else {
        OtherStepsKeepHeap(s, t);
      }
    }
  }

  /** A step ends its call when it writes, or when it moves to the end without data to write. */
  lemma StepEnds(s: State, t: CallId)
    requires Inv(s)
    ensures Step(s, t).finished == s.finished ||
            (t in s.progress && Step(s, t).finished == s.finished + [t] && t in s.args
             && (s.progress[t].pc == Write <==> s.args[t].data.Some?))
    ensures t in s.progress && s.progress[t].pc == Write ==> Step(s, t).finished == s.finished + [t]
  {
    if t in s.progress {
      CallIsOk(s, t);
    }
  }

  /**
   The state between two steps: a path exists only if it did at first or a call has claimed it,
   and its data is what the calls that have ended leave when run one after another.
   */
  ghost predicate Explained(s: State, m: Store) {
    && (forall t :: t in s.finished ==> t in s.args)
    && (forall p :: p in m ==> Standing(s, p).Some?)
    && (forall p :: Standing(s, p).Some? ==> p in m || Claimed(s, p))
    && (forall p :: Standing(s, p).Some? ==> DataOf(s, p) == DataAt(Sequential(m, s.args, s.finished), p))
  }

  /** What the ended calls have added exists. */
  lemma SequentialStands(s: State, m: Store, p: Path)
    requires Inv(s) && Explained(s, m) && Root in m
    requires p in Sequential(m, s.args, s.finished)
    ensures Standing(s, p).Some?
  {
    SequentialKeys(m, s.args, s.finished, p);
    if p !in m {
      var t :| t in s.finished && p.IsPrefixOf(At(s.args[t].names));
      CallIsOk(s, t);
      assert s.args[t].names[..|s.args[t].names|] == s.args[t].names;
      ClaimedStands(s, t, p);
    }
  }

  lemma SequentialData(s: State, m: Store, t: CallId, p: Path)
    requires Inv(s) && Root in m
    requires forall u :: u in s.finished ==> u in s.args
    requires forall u :: u in Step(s, t).finished ==> u in s.args
    ensures DataAt(Sequential(m, s.args, Step(s, t).finished), p) ==
            if t in s.progress && s.progress[t].pc == Write && p == At(s.args[t].names) then s.args[t].data
            else DataAt(Sequential(m, s.args, s.finished), p)
  {
    StepEnds(s, t);
    if Step(s, t).finished != s.finished {
      assert Step(s, t).finished[..|s.finished|] == s.finished;
      SequentialKeys(m, s.args, s.finished, p);
      AddedKeys(Sequential(m, s.args, s.finished), At(s.args[t].names), s.args[t].data, p);
    }
  }

  lemma DataStaysExplained(s: State, m: Store, t: CallId, p: Path)
    requires Inv(s) && Explained(s, m) && Root in m
    requires forall u :: u in Step(s, t).finished ==> u in s.args
    requires Standing(Step(s, t), p).Some?
    ensures DataOf(Step(s, t), p) == DataAt(Sequential(m, s.args, Step(s, t).finished), p)
  {
    NewPath(s, t, p);
    if Standing(s, p).None? {
      if p in Sequential(m, s.args, s.finished) {
        SequentialStands(s, m, p);
      }
    } else {
      StepData(s, t, p);
      SequentialData(s, m, t, p);
    }
  }

  lemma StepStaysExplained(s: State, m: Store, t: CallId)
    requires Inv(s) && Explained(s, m) && Root in m
    ensures Explained(Step(s, t), m)
  {
    var after := Step(s, t);
    StepGrows(s, t);
    StepKeepsInv(s, t);
    forall p | p in m ensures Standing(after, p).Some? {
      NewPath(s, t, p);
    }
    forall p | Standing(after, p).Some? ensures p in m || Claimed(after, p) {
      NewPath(s, t, p);
      if Standing(s, p).Some? && p !in m {
        ClaimsStay(s, t, p);
      }
    }
    forall p | Standing(after, p).Some?
      ensures DataOf(after, p) == DataAt(Sequential(m, s.args, after.finished), p)
    {
      DataStaysExplained(s, m, t, p);
    }
  }

  // ---- whole runs ----

  lemma {:induction false} EveryRunKeepsInv(s: State, m: Store, schedule: seq<CallId>)
    requires Fresh(s) && Represents(s, m)
    ensures Inv(Execute(s, schedule)) && Explained(Execute(s, schedule), m)
    ensures Root in m
    ensures Execute(s, schedule).args == s.args && Execute(s, schedule).root == s.root
    ensures Execute(s, schedule).progress.Keys == s.progress.Keys
  {
    assert Standing(s, Root).Some?;
    if schedule == [] {
      FreshIsInv(s);
    } else {
      var init, t := schedule[..|schedule| - 1], schedule[|schedule| - 1];
      EveryRunKeepsInv(s, m, init);
      StepKeepsInv(Execute(s, init), t);
      StepStaysExplained(Execute(s, init), m, t);
      StepGrows(Execute(s, init), t);
      if t in s.progress {
        StepAddsNoCall(Execute(s, init), t);
      }
    }
  }

  /** No interleaving ever moves a call to a null node, let alone calls a method on one. */
  lemma NoCallMeetsNull(s: State, m: Store, schedule: seq<CallId>, t: CallId)
    requires Fresh(s) && Represents(s, m) && t in s.progress
    ensures var now := Execute(s, schedule);
            && t in now.progress && now.progress[t].pc != Crashed
            && now.progress[t].parent.Some? && now.progress[t].parent.value in now.heap
  {
    EveryRunKeepsInv(s, m, schedule);
    CallIsOk(Execute(s, schedule), t);
  }

  /** A node that stands at a path stands there for ever, and calls that have ended stay in order. */
  lemma {:induction false} NodesNeverMove(s: State, m: Store, schedule: seq<CallId>, more: seq<CallId>, p: Path)
    requires Fresh(s) && Represents(s, m)
    ensures var now, later := Execute(s, schedule), Execute(s, schedule + more);
            && (Standing(now, p).Some? ==> Standing(later, p) == Standing(now, p))
            && now.finished <= later.finished
  {
    if more == [] {
      assert schedule + more == schedule;
    } else {
      var init, t := more[..|more| - 1], more[|more| - 1];
      NodesNeverMove(s, m, schedule, init, p);
      assert (schedule + more)[..|schedule + more| - 1] == schedule + init;
      assert Execute(s, schedule + more) == Step(Execute(s, schedule + init), t);
      EveryRunKeepsInv(s, m, schedule + init);
      NewPath(Execute(s, schedule + init), t, p);
      StepEnds(Execute(s, schedule + init), t);
    }
  }

  ghost predicate AllFinished(s: State) {
    forall t :: t in s.progress ==> s.progress[t].pc == Finished
  }

  /**
   When all calls have ended, the trie is the one that running the calls one after another, in
   the order in which they ended, makes of the initial one; every call is in that order once.
   */
  lemma RunsAreSequential(s: State, m: Store, schedule: seq<CallId>)
    requires Fresh(s) && Represents(s, m) && AllFinished(Execute(s, schedule))
    ensures var order := Execute(s, schedule).finished;
            && (forall t :: t in order <==> t in s.args)
            && (forall i, j :: 0 <= i < j < |order| ==> order[i] != order[j])
            && Represents(Execute(s, schedule), Sequential(m, s.args, order))
  {
    EveryRunKeepsInv(s, m, schedule);
    var end := Execute(s, schedule);
    var f := Sequential(m, s.args, end.finished);
    forall p ensures (p in f <==> Standing(end, p).Some?) && DataOf(end, p) == DataAt(f, p) {
      SequentialKeys(m, s.args, end.finished, p);
      if p in f {
        SequentialStands(end, m, p);
      }
      if Standing(end, p).Some? && p !in m {
        var t :| Claims(end, t, p);
        CallIsOk(end, t);
        assert s.args[t].names[..|s.args[t].names|] == s.args[t].names;
        assert t in end.finished;
      }
    }
  }

  /** So the paths that exist in the end are the initial ones and every prefix of an added one. */
  lemma EveryAddedPathExists(s: State, m: Store, schedule: seq<CallId>, p: Path)
    requires Fresh(s) && Represents(s, m) && AllFinished(Execute(s, schedule))
    ensures Standing(Execute(s, schedule), p).Some? <==>
            p in m || exists t :: t in s.args && p.IsPrefixOf(At(s.args[t].names))
  {
    RunsAreSequential(s, m, schedule);
    EveryRunKeepsInv(s, m, schedule);
    SequentialKeys(m, s.args, Execute(s, schedule).finished, p);
  }

  // ---- every call ends ----

  /** How many more steps a call can take at most. */
  function Work(a: Args, c: Progress): nat {
    if c.pc == Finished || c.pc == Crashed then 0
    else if c.pc == Write then 1
    else if c.walked >= |a.names| then 1
    else 3 * (|a.names| - c.walked) + 1 - (if c.pc == Test then 0 else if c.pc == Insert then 1 else 2)
  }

  lemma StepWorks(s: State, t: CallId)
    requires Inv(s) && t in s.progress
    ensures t in Step(s, t).progress
    ensures Work(s.args[t], Step(s, t).progress[t]) <=
            if s.progress[t].pc == Finished then 0 else Work(s.args[t], s.progress[t]) - 1
  {
    CallIsOk(s, t);
  }

  function Turns(schedule: seq<CallId>, t: CallId): nat {
    if schedule == [] then 0
    else Turns(schedule[..|schedule| - 1], t) + if schedule[|schedule| - 1] == t then 1 else 0
  }

  lemma {:induction false} TurnsUseUpWork(s: State, m: Store, schedule: seq<CallId>, t: CallId)
    requires Fresh(s) && Represents(s, m) && t in s.progress
    ensures var c := Execute(s, schedule).progress;
            t in c && (c[t].pc == Finished || Work(s.args[t], c[t]) + Turns(schedule, t) <= 3 * |s.args[t].names| + 1)
  {
    EveryRunKeepsInv(s, m, schedule);
    if schedule != [] {
      var init, u := schedule[..|schedule| - 1], schedule[|schedule| - 1];
      var before := Execute(s, init);
      TurnsUseUpWork(s, m, init, t);
      EveryRunKeepsInv(s, m, init);
      StepGrows(before, u);
      if u == t {
        CallIsOk(before, t);
        StepWorks(before, t);
      }
    }
  }

  /**
   No call waits for another: with three turns for each component of its path and one more it has
   ended, whatever the others do and even if they never move again.
   */
  lemma CallsAreWaitFree(s: State, m: Store, schedule: seq<CallId>, t: CallId)
    requires Fresh(s) && Represents(s, m) && t in s.progress
    requires Turns(schedule, t) > 3 * |s.args[t].names|
    ensures t in Execute(s, schedule).progress && Execute(s, schedule).progress[t].pc == Finished
  {
    TurnsUseUpWork(s, m, schedule, t);
    NoCallMeetsNull(s, m, schedule, t);
    EveryRunKeepsInv(s, m, schedule);
    CallIsOk(Execute(s, schedule), t);
  }
}
