/**
 A getNode call among concurrent addPath calls: every getChild is one atomic step. Reading changes
 nothing, so other readers need no turns here.
 */
module ConcurrentReads {
  import opened Wrappers
  import opened Paths
  import opened TrieStore
  import opened ConcurrentAdds
  import opened ConcurrentAddsProof

  /** The node method the call runs next. */
  datatype ReadPc =
    | Look      // parent.getChild(part) == null
    | Follow    // parent = parent.getChild(part)
    | Returned
    | Broken    // a method was called on null

  /** How many components the call has walked, and the node in its parent variable, which it returns. */
  datatype Reader = Reader(pc: ReadPc, walked: nat, node: Option<NodeId>)

  datatype Both = Both(state: State, reader: Reader)

  datatype Turn = Adds(t: CallId) | Reads

  function Begin(root: NodeId, names: Names): Reader {
    Reader(if names == [] then Returned else Look, 0, Some(root))
  }

  function ReadStep(heap: Heap, names: Names, r: Reader): Reader {
    if r.pc == Returned || r.pc == Broken then r
    else if r.node.None? || r.node.value !in heap || r.walked >= |names| then r.(pc := Broken)
    else
      var child := GetChild(heap, r.node.value, names[r.walked]);
      if r.pc == Follow then Reader(if r.walked + 1 < |names| then Look else Returned, r.walked + 1, child)
      else if child.None? then Reader(Returned, r.walked, None)
      else r.(pc := Follow)
  }

  function TakeTurn(b: Both, names: Names, turn: Turn): Both {
    match turn
    case Adds(t) => Both(Step(b.state, t), b.reader)
    case Reads => Both(b.state, ReadStep(b.state.heap, names, b.reader))
  }

  /** Any interleaving of the adding calls' steps and the reader's. */
  function TakeTurns(b: Both, names: Names, turns: seq<Turn>): Both {
    if turns == [] then b else TakeTurn(TakeTurns(b, names, turns[..|turns| - 1]), names, turns[|turns| - 1])
  }

  /** The state and the reader after these turns, when the call begins after the given schedule. */
  function Reading(s: State, before: seq<CallId>, names: Names, turns: seq<Turn>): Both {
    TakeTurns(Both(Execute(s, before), Begin(Execute(s, before).root, names)), names, turns)
  }

  function AddsOf(turns: seq<Turn>): seq<CallId> {
    if turns == [] then []
    else
      var init, last := AddsOf(turns[..|turns| - 1]), turns[|turns| - 1];
      if last.Adds? then init + [last.t] else init
  }

  /** The reader leaves the adding calls alone. */
  lemma {:induction false} ReadingLeavesAdds(s: State, before: seq<CallId>, names: Names, turns: seq<Turn>)
    ensures Reading(s, before, names, turns).state == Execute(s, before + AddsOf(turns))
  {
    if turns == [] {
      assert before + [] == before;
    } else {
      var init, last := turns[..|turns| - 1], turns[|turns| - 1];
      ReadingLeavesAdds(s, before, names, init);
      if last.Adds? {
        var all := before + AddsOf(turns);
        assert all[..|all| - 1] == before + AddsOf(init) && all[|all| - 1] == last.t;
      }
    }
  }

  /** The reader stands on the node at the path it has walked; null means that the path was missing at first. */
  ghost predicate ReaderOk(first: State, s: State, names: Names, r: Reader) {
    && r.pc != Broken && r.walked <= |names|
    && (r.node.Some? ==> Standing(s, At(names[..r.walked])) == r.node)
    && (r.pc.Look? || r.pc.Follow? ==> r.node.Some? && r.walked < |names|)
    && (r.pc.Follow? ==> Standing(s, At(names[..r.walked + 1])).Some?)
    && (r.pc.Returned? && r.node.Some? ==> r.walked == |names|)
    && (r.node.None? ==> Standing(first, At(names)).None?)
  }

  /** What stands stays where it is. */
  ghost predicate Keeps(before: State, after: State) {
    forall p :: Standing(before, p).Some? ==> Standing(after, p) == Standing(before, p)
  }

  lemma ReaderStaysOk(first: State, s: State, after: State, names: Names, r: Reader)
    requires ReaderOk(first, s, names, r) && Keeps(s, after)
    ensures ReaderOk(first, after, names, r)
  {}

  lemma ChildStands(s: State, names: Names, k: nat)
    requires HeapOk(s.heap, s.root, s.nextId) && k < |names| && Standing(s, At(names[..k])).Some?
    ensures var n := Standing(s, At(names[..k])).value;
            n in s.heap && Standing(s, At(names[..k + 1])) == GetChild(s.heap, n, names[k])
  {
    NodeAtIsInHeap(s.heap, s.root, s.nextId, At(names[..k]));
    AtStep(names, k);
  }

  lemma MissingOnTheWay(first: State, s: State, names: Names, k: nat)
    requires Keeps(first, s) && k <= |names| && Standing(s, At(names[..k])).None?
    ensures Standing(s, At(names)).None? && Standing(first, At(names)).None?
  {
    AtIsMonotone(names, k);
    if Standing(s, At(names)).Some? {
      PrefixStands(s, At(names[..k]), At(names));
    }
  }

  lemma LookStaysOk(first: State, s: State, names: Names, r: Reader)
    requires ReaderOk(first, s, names, r) && Keeps(first, s) && HeapOk(s.heap, s.root, s.nextId) && r.pc.Look?
    ensures ReaderOk(first, s, names, ReadStep(s.heap, names, r))
  {
    ChildStands(s, names, r.walked);
    if GetChild(s.heap, r.node.value, names[r.walked]).None? {
      MissingOnTheWay(first, s, names, r.walked + 1);
      assert ReadStep(s.heap, names, r) == Reader(Returned, r.walked, None);
    } else {
      assert ReadStep(s.heap, names, r) == r.(pc := Follow);
    }
  }

  lemma ReadStepStaysOk(first: State, s: State, names: Names, r: Reader)
    requires ReaderOk(first, s, names, r) && Keeps(first, s) && HeapOk(s.heap, s.root, s.nextId)
    ensures ReaderOk(first, s, names, ReadStep(s.heap, names, r))
  {
    match r.pc
    case Look => LookStaysOk(first, s, names, r);
    case Follow => ChildStands(s, names, r.walked);
    case _ =>
  }

  lemma BeginIsOk(s: State, names: Names)
    ensures ReaderOk(s, s, names, Begin(s.root, names))
  {
    assert names[..0] == [];
  }

  lemma RunKeeps(s: State, m: Store, schedule: seq<CallId>, more: seq<CallId>)
    requires Fresh(s) && Represents(s, m)
    ensures Keeps(Execute(s, schedule), Execute(s, schedule + more))
  {
    forall p | Standing(Execute(s, schedule), p).Some?
      ensures Standing(Execute(s, schedule + more), p) == Standing(Execute(s, schedule), p)
    {
      NodesNeverMove(s, m, schedule, more, p);
    }
  }

  lemma {:induction false} EveryReadingIsOk(s: State, m: Store, before: seq<CallId>, names: Names, turns: seq<Turn>)
    requires Fresh(s) && Represents(s, m)
    ensures var b := Reading(s, before, names, turns); ReaderOk(Execute(s, before), b.state, names, b.reader)
  {
    var first := Execute(s, before);
    if turns == [] {
      BeginIsOk(first, names);
    } else {
      var init, last := turns[..|turns| - 1], turns[|turns| - 1];
      var was := Reading(s, before, names, init);
      EveryReadingIsOk(s, m, before, names, init);
      ReadingLeavesAdds(s, before, names, init);
      match last
      case Adds(t) =>
        var schedule := before + AddsOf(init);
        RunKeeps(s, m, schedule, [t]);
        assert (schedule + [t])[..|schedule|] == schedule;
        ReaderStaysOk(first, was.state, Step(was.state, t), names, was.reader);
      case Reads =>
        RunKeeps(s, m, before, AddsOf(init));
        EveryRunKeepsInv(s, m, before + AddsOf(init));
        ReadStepStaysOk(first, was.state, names, was.reader);
    }
  }

  /**
   A getNode call among addPath calls never meets null on its way. It returns the node of its path,
   standing there when it returns, or null, and then the path was missing when it began. So it
   answers as at one moment of the call, and finds every path that existed when it began.
   */
  lemma ReadsAreAtomic(s: State, m: Store, before: seq<CallId>, names: Names, turns: seq<Turn>)
    requires Fresh(s) && Represents(s, m)
    ensures var first, last := Execute(s, before), Reading(s, before, names, turns);
            && last.reader.pc != Broken
            && (last.reader.pc == Returned ==>
                  && Standing(if last.reader.node.Some? then last.state else first, At(names)) == last.reader.node
                  && (Standing(first, At(names)).Some? ==> last.reader.node == Standing(first, At(names))))
  {
    EveryReadingIsOk(s, m, before, names, turns);
    ReadingLeavesAdds(s, before, names, turns);
    RunKeeps(s, m, before, AddsOf(turns));
    assert names[..|names|] == names;
  }

  /** The data getNodeData then reads, at any later moment, is what the calls ended by then have left. */
  lemma DataReadIsSequential(s: State, m: Store, before: seq<CallId>, names: Names, turns: seq<Turn>, more: seq<CallId>)
    requires Fresh(s) && Represents(s, m)
    requires var r := Reading(s, before, names, turns).reader; r.pc == Returned && r.node.Some?
    ensures var node := Reading(s, before, names, turns).reader.node.value;
            var now := Execute(s, before + AddsOf(turns) + more);
            && (forall t :: t in now.finished ==> t in s.args) && node in now.heap
            && now.heap[node].data == DataAt(Sequential(m, s.args, now.finished), At(names))
  {
    var schedule := before + AddsOf(turns);
    var now := Execute(s, schedule + more);
    ReadsAreAtomic(s, m, before, names, turns);
    ReadingLeavesAdds(s, before, names, turns);
    RunKeeps(s, m, schedule, more);
    EveryRunKeepsInv(s, m, schedule + more);
    NodeAtIsInHeap(now.heap, now.root, now.nextId, At(names));
  }

  function ReadTurns(turns: seq<Turn>): nat {
    if turns == [] then 0 else ReadTurns(turns[..|turns| - 1]) + if turns[|turns| - 1].Reads? then 1 else 0
  }

  /** The steps still to come, at most. */
  function ReadWork(names: Names, r: Reader): nat {
    if r.pc == Returned || r.pc == Broken || r.walked >= |names| then 0
    else 2 * (|names| - r.walked) - if r.pc == Follow then 1 else 0
  }

  /** The call has returned after two turns for each component, whatever the adding calls do. */
  lemma {:induction false} ReadsAreWaitFree(
      s: State, m: Store, before: seq<CallId>, names: Names, turns: seq<Turn>)
    requires Fresh(s) && Represents(s, m)
    ensures var r := Reading(s, before, names, turns).reader;
            && (r.pc == Returned || ReadWork(names, r) + ReadTurns(turns) <= 2 * |names|)
            && (ReadTurns(turns) >= 2 * |names| ==> r.pc == Returned)
  {
    EveryReadingIsOk(s, m, before, names, turns);
    if turns != [] {
      var init := turns[..|turns| - 1];
      ReadsAreWaitFree(s, m, before, names, init);
      EveryReadingIsOk(s, m, before, names, init);
    }
  }
}
