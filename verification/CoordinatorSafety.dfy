/**
 What every interleaving of the coordinator loop with its connection handlers keeps.
 */
module CoordinatorSafety {
  import opened Collections
  import opened Dag
  import opened PlasmaGraph
  import opened Coordinator

  // The invariant ------------------------------------------------------------------------

  ghost predicate GraphInv(s: State) {
    DistinctIds(s.sh.nodes) && ClosedDeps(s.sh.nodes) && s.sh.completed <= Ids(s.sh.nodes)
  }

  /** At most one node runs, only between marking and finishing, and only after its dependencies. */
  ghost predicate LoopInv(s: State) {
    && s.sh.running == (if s.pc.Executing? then {s.pc.node.id} else {})
    && (s.pc.Picked? ==> s.pc.runningCnt == 0)
    && !s.pc.Polling?
    && (s.pc.Picked? && s.pc.next.Some? ==> s.pc.next.value in s.sh.nodes && Ready(s.pc.next.value, s.sh.completed, {}))
    && (s.pc.Executing? ==> s.pc.node in s.sh.nodes && Ready(s.pc.node, s.sh.completed, {}))
  }

  function FailedIds(pc: Pc): set<string> {
    if pc.Returned? && pc.outcome.Failed? then {pc.outcome.id} else {}
  }

  /** Executed ids are the completed ones, the running one and the one that failed; none twice. */
  ghost predicate StartedInv(s: State) {
    && Distinct(s.started)
    && ToSet(s.started) == s.sh.completed + s.sh.running + FailedIds(s.pc)
    && ToSet(s.started) <= Ids(s.sh.nodes) && FailedIds(s.pc) !! s.sh.completed
    && (forall n, d :: n in s.sh.nodes && n.id in s.started && d in n.dependsOn ==> d in s.sh.completed)
    && (forall k, n, d :: 0 <= k < |s.started| && n in s.sh.nodes && n.id == s.started[k] && d in n.dependsOn ==>
          d in s.started[..k])
  }

  /** The loop found nothing to run at its latest pick and has not picked since. */
  predicate FoundNothing(pc: Pc) {
    (pc.Picked? && pc.next.None?) || pc.IdleWait? || (pc.Returned? && pc.outcome.IdleTimeout?)
  }

  ghost predicate IdleInv(s: State) {
    && s.seen <= s.sh.nodes && ClosedDeps(s.seen)
    && (FoundNothing(s.pc) ==> s.sh.completed <= Ids(s.seen) && IsPick(s.seen, s.sh.completed, {}, None))
    && (s.sh.idleAnnounced ==> s.sh.nodes != [] && s.sh.completed == Ids(s.sh.nodes))
  }

  ghost predicate Inv(s: State) {
    GraphInv(s) && LoopInv(s) && StartedInv(s) && IdleInv(s)
  }

  // The counting test ---------------------------------------------------------------------

  /** `done == total` says that every id is completed. */
  lemma CountingTest(s: State)
    requires GraphInv(s)
    ensures |s.sh.completed| == |s.sh.nodes| <==> s.sh.completed == Ids(s.sh.nodes)
  {
    IdSeqSet(s.sh.nodes);
    SubsetCardinality(s.sh.completed, Ids(s.sh.nodes));
  }

  // Preservation ----------------------------------------------------------------------------

  lemma InitInv(pipeline: seq<Node>)
    requires DistinctIds(pipeline) && ClosedDeps(pipeline)
    ensures Inv(Init(pipeline))
  {
  }

  lemma PickStep(s: State, t: State, next: Option<Node>)
    requires Inv(s) && Next(s, t, Pick(next))
    ensures Inv(t)
  {
    assert s.sh.nodes <= s.sh.nodes;
  }

  lemma MarkStep(s: State, t: State)
    requires Inv(s) && Next(s, t, Mark)
    ensures Inv(t)
  {
    var n := s.pc.next.value;
    assert n.id in Ids(s.sh.nodes);
    assert n.id !in ToSet(s.started);
    assert ToSet(t.started) == ToSet(s.started) + {n.id};
    MarkDeps(s, t, n);
  }

  /** A node marked as running has its dependencies completed, like every one started before. */
  lemma MarkDeps(s: State, t: State, n: Node)
    requires GraphInv(s) && StartedInv(s) && n in s.sh.nodes && Ready(n, s.sh.completed, {})
    requires t.started == s.started + [n.id] && t.sh == s.sh.Mark(n.id)
    ensures forall m, d :: m in t.sh.nodes && m.id in t.started && d in m.dependsOn ==> d in t.sh.completed
    ensures forall k, m, d :: 0 <= k < |t.started| && m in t.sh.nodes && m.id == t.started[k] && d in m.dependsOn ==>
              d in t.started[..k]
  {
    forall m, d | m in t.sh.nodes && m.id in t.started && d in m.dependsOn
      ensures d in t.sh.completed
    {
      assert m.id == n.id ==> m == n;
    }
    forall k, m, d | 0 <= k < |t.started| && m in t.sh.nodes && m.id == t.started[k] && d in m.dependsOn
      ensures d in t.started[..k]
    {
      MarkOrder(s, t, n, k, m, d);
    }
  }

  lemma MarkOrder(s: State, t: State, n: Node, k: nat, m: Node, d: string)
    requires GraphInv(s) && StartedInv(s) && n in s.sh.nodes && Ready(n, s.sh.completed, {})
    requires t.started == s.started + [n.id] && k < |t.started|
    requires m in s.sh.nodes && m.id == t.started[k] && d in m.dependsOn
    ensures d in t.started[..k]
  {
    if k < |s.started| {
      assert t.started[..k] == s.started[..k];
      assert m.id == s.started[k];
    } else {
      assert m == n && t.started[..k] == s.started;
      assert d in ToSet(s.started);
    }
  }

  lemma FinishStep(s: State, t: State, e: Event)
    requires Inv(s) && Next(s, t, e) && (e.ExecOk? || e.ExecFail?)
    ensures Inv(t)
  {
    assert s.pc.node.id in Ids(s.sh.nodes);
    assert t.sh.completed + t.sh.running + FailedIds(t.pc) == s.sh.completed + s.sh.running + FailedIds(s.pc);
  }

  lemma QuietStep(s: State, t: State, e: Event)
    requires Inv(s) && Next(s, t, e) && LoopEvent(e)
    requires !e.Pick? && !e.Mark? && !e.ExecOk? && !e.ExecFail? && !e.Quiesce?
    ensures Inv(t)
  {
    assert t.sh == s.sh.(wake := t.sh.wake);
    assert FailedIds(t.pc) == FailedIds(s.pc);
    assert StartedInv(t);
  }

  lemma QuiesceStep(s: State, t: State)
    requires Inv(s) && Next(s, t, Quiesce)
    ensures Inv(t)
  {
    SameStarted(s, t);
    AnnounceStep(s, t);
  }

  lemma AnnounceStep(s: State, t: State)
    requires GraphInv(s) && IdleInv(s) && FoundNothing(s.pc) && t.sh == s.sh.Announce() && t.seen == s.seen && t.pc == IdleWait
    ensures GraphInv(t) && IdleInv(t)
  {
    CountingTest(s);
  }

  lemma AnnounceFlag(s: State)
    requires GraphInv(s) && s.sh.running == {} && (s.sh.idleAnnounced ==> s.sh.nodes != [] && s.sh.completed == Ids(s.sh.nodes))
    ensures s.sh.Announce().idleAnnounced <==> s.sh.nodes != [] && s.sh.completed == Ids(s.sh.nodes)
  {
    CountingTest(s);
  }

  /** The quiescence announcement: made exactly when there are nodes and all of them are completed. */
  lemma AnnouncedIff(s: State, t: State)
    requires Inv(s) && Next(s, t, Quiesce)
    ensures t.sh.idleAnnounced <==> s.sh.nodes != [] && s.sh.completed == Ids(s.sh.nodes)
  {
    assert t.sh == s.sh.Announce();
    AnnounceFlag(s);
  }

  lemma SameStarted(s: State, t: State)
    requires StartedInv(s) && t.started == s.started && t.sh.nodes == s.sh.nodes
    requires t.sh.completed == s.sh.completed && t.sh.running == s.sh.running && FailedIds(t.pc) == FailedIds(s.pc)
    ensures StartedInv(t)
  {
  }

  /** An accepted branch keeps the graph distinct and closed and touches nothing already there. */
  lemma MergeStep(s: State, t: State, add: seq<Node>)
    requires Inv(s) && Accepts(s.sh.nodes, add)
    requires t.sh == s.sh.Merge(add) && t.pc == s.pc && t.started == s.started && t.seen == s.seen
    ensures Inv(t)
  {
    IdsOfConcat(s.sh.nodes, add);
    if add == [] {
      assert t.sh.nodes == s.sh.nodes;
    } else {
      assert forall n :: n in t.sh.nodes <==> n in s.sh.nodes || n in add;
      assert forall x :: x in ToSet(s.started) <==> x in s.started;
      MergeStarted(s, t, add);
    }
  }

  /** Ids executed before the merge belong to nodes that were there before the merge. */
  lemma MergeStarted(s: State, t: State, add: seq<Node>)
    requires GraphInv(s) && LoopInv(s) && StartedInv(s) && Admissible(s.sh.nodes, add)
    requires t.sh == s.sh.Merge(add) && t.pc == s.pc && t.started == s.started
    ensures StartedInv(t)
  {
    forall n | n in t.sh.nodes && n.id in s.started
      ensures n in s.sh.nodes
    {
      assert n.id in ToSet(s.started);
    }
  }

  lemma HandlerStep(s: State, t: State, e: Event)
    requires Inv(s) && Next(s, t, e) && !LoopEvent(e)
    ensures Inv(t)
  {
    if e.Receive? && e.req.Branch? && Accepts(s.sh.nodes, e.req.add) {
      MergeStep(s, t, e.req.add);
    } else {
      assert t.sh == s.sh.(samples := t.sh.samples, wake := t.sh.wake);
      SameStarted(s, t);
    }
  }

  lemma StepInv(s: State, t: State, e: Event)
    requires Inv(s) && Next(s, t, e)
    ensures Inv(t)
  {
    if !LoopEvent(e) {
      HandlerStep(s, t, e);
    } else if e.Pick? {
      PickStep(s, t, e.next);
    } else if e.Mark? {
      MarkStep(s, t);
    } else if e.Quiesce? {
      QuiesceStep(s, t);
    } else if e.ExecOk? || e.ExecFail? {
      FinishStep(s, t, e);
    } else {
      QuietStep(s, t, e);
    }
  }

  /** Safety over every interleaving, from any pipeline that passes validation. */
  lemma {:induction false} RunInv(pipeline: seq<Node>, states: seq<State>, events: seq<Event>, i: nat)
    requires DistinctIds(pipeline) && ClosedDeps(pipeline)
    requires IsRun(pipeline, states, events) && i < |states|
    ensures Inv(states[i])
  {
    if i == 0 {
      InitInv(pipeline);
    } else {
      RunInv(pipeline, states, events, i - 1);
      StepInv(states[i - 1], states[i], events[i - 1]);
    }
  }
}
