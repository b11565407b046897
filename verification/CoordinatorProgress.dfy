/**
 Growth, progress and termination of the coordinator loop, and the exact condition under
 which an idle exit leaves no work undone.
 */
module CoordinatorProgress {
  import opened Collections
  import opened Dag
  import opened Text
  import opened PlasmaGraph
  import opened Coordinator
  import opened CoordinatorSafety

  // Growth ---------------------------------------------------------------------------------

  /** Nothing is ever taken back: lists only grow at the end, completed ids stay completed. */
  ghost predicate Grows(s: State, t: State) {
    && s.sh.nodes <= t.sh.nodes && s.sh.completed <= t.sh.completed
    && s.sh.samples <= t.sh.samples && s.started <= t.started
    && (forall c :: c in s.conns ==>
          c in t.conns && s.conns[c].requests <= t.conns[c].requests && s.conns[c].replies <= t.conns[c].replies)
  }

  lemma {:induction false} RunGrows(pipeline: seq<Node>, states: seq<State>, events: seq<Event>, i: nat, j: nat)
    requires IsRun(pipeline, states, events) && i <= j < |states|
    ensures Grows(states[i], states[j])
    decreases j
  {
    if i < j {
      RunGrows(pipeline, states, events, i, j - 1);
      StepGrows(states[j - 1], states[j], events[j - 1]);
      GrowsOn(states[i], states[j - 1], states[j]);
    }
  }

  lemma StepGrows(s: State, t: State, e: Event)
    requires Next(s, t, e)
    ensures Grows(s, t)
  {
  }

  lemma GrowsOn(r: State, s: State, t: State)
    requires Grows(r, s) && Grows(s, t)
    ensures Grows(r, t)
  {
  }

  lemma StepAcyclic(s: State, t: State, e: Event)
    requires Next(s, t, e)
    ensures Acyclic(s.sh.nodes) ==> Acyclic(t.sh.nodes)
    ensures !Acyclic(s.sh.nodes) ==> t.sh.nodes == s.sh.nodes
  {
    if e.Receive? && e.req.Branch? && Accepts(s.sh.nodes, e.req.add) {
      if e.req.add == [] {
        assert t.sh.nodes == s.sh.nodes;
      }
      if !Acyclic(s.sh.nodes) {
        CyclicGraphIsFrozen(s.sh.nodes, e.req.add);
      }
    }
  }

  /** An acyclic pipeline stays acyclic under every branch; a cyclic one never changes. */
  lemma {:induction false} RunAcyclic(pipeline: seq<Node>, states: seq<State>, events: seq<Event>, i: nat)
    requires IsRun(pipeline, states, events) && i < |states|
    ensures Acyclic(pipeline) ==> Acyclic(states[i].sh.nodes)
    ensures !Acyclic(pipeline) ==> states[i].sh.nodes == pipeline
  {
    if i > 0 {
      RunAcyclic(pipeline, states, events, i - 1);
      StepAcyclic(states[i - 1], states[i], events[i - 1]);
    }
  }

  // Idle exit --------------------------------------------------------------------------------

  lemma {:induction false} RunSeen(pipeline: seq<Node>, states: seq<State>, events: seq<Event>, i: nat)
    requires IsRun(pipeline, states, events) && i < |states|
    ensures pipeline <= states[i].sh.nodes
    ensures states[i].pc.Picked? || FoundNothing(states[i].pc) ==> pipeline <= states[i].seen
  {
    if i > 0 {
      RunSeen(pipeline, states, events, i - 1);
      assert Next(states[i - 1], states[i], events[i - 1]);
    }
  }

  lemma PrefixAcyclic(a: seq<Node>, b: seq<Node>)
    requires a <= b && Acyclic(b)
    ensures Acyclic(a)
  {
    var rest := b[|a|..];
    assert b == a + rest;
    forall p | IsCycle(a, p)
      ensures false
    {
      CycleLifts(a, rest, p);
    }
  }

  /** When the loop finds nothing to run in an acyclic graph, everything it looked at is completed. */
  lemma NothingLeft(s: State)
    requires Inv(s) && Acyclic(s.sh.nodes) && FoundNothing(s.pc)
    ensures s.sh.completed == Ids(s.seen)
  {
    PrefixAcyclic(s.seen, s.sh.nodes);
    assert forall i :: 0 <= i < |s.seen| ==> s.seen[i] == s.sh.nodes[i];
    if !(Ids(s.seen) <= s.sh.completed) {
      Progress(s.seen, s.sh.completed, None);
    }
  }

  lemma IdsOfPrefix(a: seq<Node>, b: seq<Node>)
    requires a <= b && DistinctIds(b)
    ensures Ids(a) == Ids(b) <==> a == b
  {
    if a != b {
      var n := b[|a|];
      assert n in b && n.id in Ids(b);
      assert forall k :: 0 <= k < |a| ==> a[k] == b[k];
      assert n.id !in Ids(a);
    }
  }

  /**
   At an idle exit from an acyclic pipeline, every node seen by the preceding pick is completed;
   the whole graph is completed exactly when no branch was merged after that pick.
   */
  lemma IdleExitDone(pipeline: seq<Node>, states: seq<State>, events: seq<Event>, i: nat)
    requires DistinctIds(pipeline) && ClosedDeps(pipeline) && Acyclic(pipeline)
    requires IsRun(pipeline, states, events) && i < |states| && FoundNothing(states[i].pc)
    ensures states[i].sh.completed == Ids(states[i].seen)
    ensures Ids(pipeline) <= states[i].sh.completed
    ensures states[i].sh.completed == Ids(states[i].sh.nodes) <==> states[i].seen == states[i].sh.nodes
  {
    RunInv(pipeline, states, events, i);
    RunAcyclic(pipeline, states, events, i);
    RunSeen(pipeline, states, events, i);
    NothingLeft(states[i]);
    IdsOfPrefix(states[i].seen, states[i].sh.nodes);
    assert forall n :: n in pipeline ==> n in states[i].seen;
  }

  // Cyclic pipelines ---------------------------------------------------------------------------

  /** Along a dependency chain, start positions strictly decrease. */
  lemma {:induction false} StartedChainDescends(s: State, p: seq<string>, k: nat) returns (m: nat)
    requires Inv(s) && IsChain(s.sh.nodes, p) && |p| >= 1
    requires k < |s.started| && s.started[k] == p[0]
    ensures m <= k && m < |s.started| && s.started[m] == p[|p| - 1]
    ensures |p| > 1 ==> m < k
    decreases |p|
  {
    m := k;
    if |p| > 1 {
      assert Depends(s.sh.nodes, p[0], p[1]);
      var n :| n in s.sh.nodes && n.id == p[0] && p[1] in n.dependsOn;
      assert p[1] in s.started[..k];
      m :| 0 <= m < k && s.started[m] == p[1];
      ChainSuffix(s.sh.nodes, p, 1);
      m := StartedChainDescends(s, p[1..], m);
    }
  }

  lemma CycleNeverStarts(s: State, p: seq<string>)
    requires Inv(s) && IsCycle(s.sh.nodes, p)
    ensures ToSet(p) !! ToSet(s.started)
  {
    forall j | 0 <= j < |p|
      ensures p[j] !in s.started
    {
      if p[j] in s.started {
        var k :| 0 <= k < |s.started| && s.started[k] == p[j];
        ChainSuffix(s.sh.nodes, p, j);
        var m := StartedChainDescends(s, p[j..], k);
        var m' := StartedChainDescends(s, p, m);
        assert false;
      }
    }
  }

  /** No interleaving ever starts a node that lies on a cycle of the pipeline. */
  lemma CycleNeverRuns(pipeline: seq<Node>, states: seq<State>, events: seq<Event>, i: nat, p: seq<string>)
    requires DistinctIds(pipeline) && ClosedDeps(pipeline) && IsCycle(pipeline, p)
    requires IsRun(pipeline, states, events) && i < |states|
    ensures ToSet(p) !! ToSet(states[i].started)
  {
    RunInv(pipeline, states, events, i);
    RunAcyclic(pipeline, states, events, i);
    CycleNeverStarts(states[i], p);
  }

  // Termination -----------------------------------------------------------------------------------

  ghost function Unfinished(s: State): nat {
    |Ids(s.sh.nodes) - s.sh.completed|
  }

  ghost function PcRank(pc: Pc): nat {
    match pc
    case Notifying => 5
    case Head => 4
    case Picked(next, _) => if next.Some? then 3 else 1
    case Executing(_) => 2
    case Polling => 0
    case IdleWait => 0
    case Returned(_) => 0
  }

  /** The number of loop steps that can happen before the loop next waits or returns. */
  ghost function Rank(s: State): nat {
    5 * Unfinished(s) + PcRank(s.pc)
  }

  lemma ExecOkFinishesOne(s: State, t: State)
    requires s.pc.Executing? && s.pc.node in s.sh.nodes && s.pc.node.id !in s.sh.completed
    requires Next(s, t, ExecOk)
    ensures Unfinished(t) == Unfinished(s) - 1
  {
    assert s.pc.node.id in Ids(s.sh.nodes);
    OneFewerLeft(Ids(s.sh.nodes), s.sh.completed, s.pc.node.id);
  }

  /**
   Every loop step outside the idle wait lowers the rank; handler steps leave it alone unless they
   make the graph grow.
   */
  lemma RankDecreases(s: State, t: State, e: Event)
    requires Inv(s) && Next(s, t, e)
    ensures LoopEvent(e) && !s.pc.IdleWait? ==> Rank(t) < Rank(s)
    ensures !LoopEvent(e) && t.sh.nodes == s.sh.nodes ==> Rank(t) == Rank(s)
  {
    PcDescends(s, t, e);
    if e.ExecOk? {
      ExecOkFinishesOne(s, t);
    } else if t.sh.nodes == s.sh.nodes {
      OthersFinishNone(s, t, e);
    } else {
      assert !LoopEvent(e);
    }
  }

  lemma OthersFinishNone(s: State, t: State, e: Event)
    requires Next(s, t, e) && !e.ExecOk? && t.sh.nodes == s.sh.nodes
    ensures Unfinished(t) == Unfinished(s)
  {
    assert t.sh.completed == s.sh.completed;
  }

  lemma PcDescends(s: State, t: State, e: Event)
    requires Next(s, t, e) && !s.pc.Polling? && (s.pc.Picked? ==> s.pc.runningCnt == 0)
    ensures LoopEvent(e) && !s.pc.IdleWait? && !e.ExecOk? ==> PcRank(t.pc) < PcRank(s.pc)
    ensures e.ExecOk? ==> PcRank(t.pc) < PcRank(s.pc) + 5
    ensures !LoopEvent(e) ==> PcRank(t.pc) == PcRank(s.pc)
  {
  }

  /** How many of the events from the i-th up to the j-th are steps of the loop. */
  function LoopSteps(events: seq<Event>, i: nat, j: nat): nat
    requires i <= j <= |events|
  {
    if i == j then 0 else LoopSteps(events, i, j - 1) + if LoopEvent(events[j - 1]) then 1 else 0
  }

  /** The loop is not sitting idle in the k-th state, and the next step adds no node. */
  ghost predicate Busy(states: seq<State>, k: int) {
    0 <= k < |states| - 1 && !states[k].pc.IdleWait? && states[k + 1].sh.nodes == states[k].sh.nodes
  }

  lemma StepPaidFor(pipeline: seq<Node>, states: seq<State>, events: seq<Event>, k: nat)
    requires DistinctIds(pipeline) && ClosedDeps(pipeline) && IsRun(pipeline, states, events) && k < |events|
    requires Busy(states, k)
    ensures Rank(states[k + 1]) + (if LoopEvent(events[k]) then 1 else 0) <= Rank(states[k])
  {
    RunInv(pipeline, states, events, k);
    RankDecreases(states[k], states[k + 1], events[k]);
  }

  ghost predicate Pays(ranks: seq<int>, events: seq<Event>, k: int)
    requires 0 <= k < |ranks| - 1 && k < |events|
  {
    ranks[k + 1] + (if LoopEvent(events[k]) then 1 else 0) <= ranks[k]
  }

  lemma {:induction false} CountPayments(ranks: seq<int>, events: seq<Event>, i: nat, j: nat)
    requires i <= j < |ranks| == |events| + 1
    requires forall k {:trigger Pays(ranks, events, k)} :: i <= k < j ==> Pays(ranks, events, k)
    ensures LoopSteps(events, i, j) + ranks[j] <= ranks[i]
    decreases j
  {
    if i < j {
      CountPayments(ranks, events, i, j - 1);
      assert Pays(ranks, events, j - 1);
    }
  }

  /** While the graph does not grow and the loop does not sit idle, the rank pays for every step it takes. */
  lemma LoopStepsBounded(pipeline: seq<Node>, states: seq<State>, events: seq<Event>, i: nat, j: nat)
    requires DistinctIds(pipeline) && ClosedDeps(pipeline) && IsRun(pipeline, states, events) && i <= j < |states|
    requires forall k {:trigger Busy(states, k)} :: i <= k < j ==> Busy(states, k)
    ensures LoopSteps(events, i, j) + Rank(states[j]) <= Rank(states[i])
  {
    var ranks: seq<int> := seq(|states|, k requires 0 <= k < |states| => Rank(states[k]));
    forall k | i <= k < j
      ensures Pays(ranks, events, k)
    {
      assert Busy(states, k);
      StepPaidFor(pipeline, states, events, k);
    }
    CountPayments(ranks, events, i, j);
  }

  /** A pipeline nobody branches is idle or finished within five loop steps per node and four more. */
  lemma QuiescesWithin(pipeline: seq<Node>, states: seq<State>, events: seq<Event>, j: nat)
    requires DistinctIds(pipeline) && ClosedDeps(pipeline) && IsRun(pipeline, states, events) && j < |states|
    requires forall k {:trigger Busy(states, k)} :: 0 <= k < j ==> Busy(states, k)
    ensures LoopSteps(events, 0, j) <= 5 * |pipeline| + 4
  {
    LoopStepsBounded(pipeline, states, events, 0, j);
    IdSeqSet(pipeline);
    assert Ids(pipeline) - {} == Ids(pipeline);
  }

  /** In every reachable state of an acyclic pipeline with work left, the loop head finds a node to run. */
  lemma HeadFindsWork(pipeline: seq<Node>, states: seq<State>, events: seq<Event>, i: nat, next: Option<Node>)
    requires WellFormed(pipeline) && IsRun(pipeline, states, events) && i < |states|
    requires states[i].pc.Head? && states[i].sh.completed != Ids(states[i].sh.nodes)
    requires IsPick(states[i].sh.nodes, states[i].sh.completed, states[i].sh.running, next)
    ensures next.Some?
  {
    RunInv(pipeline, states, events, i);
    RunAcyclic(pipeline, states, events, i);
    Progress(states[i].sh.nodes, states[i].sh.completed, next);
  }

  lemma {:induction false} PickExists(nodes: seq<Node>, completed: set<string>, running: set<string>) returns (next: Option<Node>)
    ensures IsPick(nodes, completed, running, next)
  {
    if nodes == [] {
      return None;
    }
    var front, n := nodes[..|nodes| - 1], nodes[|nodes| - 1];
    assert nodes == front + [n];
    next := PickExists(front, completed, running);
    if Ready(n, completed, running) && (next.None? || StrLess(n.id, next.value.id)) {
      forall m | m in nodes && Ready(m, completed, running)
        ensures !StrLess(m.id, n.id)
      {
        StrLessTrichotomy(m.id, n.id);
        if m in front && StrLess(m.id, n.id) {
          StrLessTransitive(m.id, n.id, next.value.id);
        }
      }
      next := Some(n);
    }
  }

  /** Until it returns, the loop always has a next step that is neither a failure nor a cancellation. */
  lemma LoopEnabled(s: State) returns (e: Event, t: State)
    requires Inv(s) && !s.pc.Returned?
    ensures LoopEvent(e) && !e.ExecFail? && !e.Cancel? && Next(s, t, e)
    ensures s.pc.IdleWait? ==> t.pc == Returned(IdleTimeout)
    ensures t.pc.Returned? ==> t.pc.outcome.IdleTimeout?
  {
    match s.pc
    case Head =>
      var next := PickExists(s.sh.nodes, s.sh.completed, s.sh.running);
      e, t := Pick(next), s.(pc := Picked(next, |s.sh.running|), seen := s.sh.nodes);
    case Picked(next, _) =>
      if next.Some? {
        e, t := Mark, s.(pc := Executing(next.value), sh := s.sh.Mark(next.value.id), started := s.started + [next.value.id]);
      } else {
        e, t := Quiesce, s.(pc := IdleWait, sh := s.sh.Announce());
      }
    case Executing(n) =>
      e, t := ExecOk, s.(pc := Notifying, sh := s.sh.Complete(n.id));
    case Notifying =>
      e, t := SignalDone, s.(pc := Head, sh := s.sh.Signal());
    case IdleWait =>
      e, t := IdleExit, s.(pc := Returned(IdleTimeout));
  }

  /** Left alone, the loop extends any run to an idle exit. */
  lemma {:induction false} RunsToIdle(pipeline: seq<Node>, states: seq<State>, events: seq<Event>)
    returns (states': seq<State>, events': seq<Event>)
    requires DistinctIds(pipeline) && ClosedDeps(pipeline) && IsRun(pipeline, states, events)
    requires states[|events|].pc.Returned? ==> states[|events|].pc.outcome.IdleTimeout?
    ensures IsRun(pipeline, states', events') && states <= states'
    ensures states'[|events'|].pc == Returned(IdleTimeout)
    decreases if states[|events|].pc.Returned? then 0 else 1 + Rank(states[|events|])
  {
    var s := states[|events|];
    RunInv(pipeline, states, events, |events|);
    states', events' := states, events;
    if !s.pc.Returned? {
      var e, t := LoopEnabled(s);
      RankDecreases(s, t, e);
      ExtendRun(pipeline, states, events, e, t);
      states', events' := RunsToIdle(pipeline, states + [t], events + [e]);
    }
  }

  lemma ExtendRun(pipeline: seq<Node>, states: seq<State>, events: seq<Event>, e: Event, t: State)
    requires IsRun(pipeline, states, events) && Next(states[|events|], t, e)
    ensures IsRun(pipeline, states + [t], events + [e])
  {
    forall i | 0 <= i < |events| + 1
      ensures Next((states + [t])[i], (states + [t])[i + 1], (events + [e])[i])
    {
      if i < |events| {
        assert Next(states[i], states[i + 1], events[i]);
      }
    }
  }

  /** Every idle exit of every run has completed the whole pipeline. */
  ghost predicate AlwaysFinishes(pipeline: seq<Node>) {
    forall states: seq<State>, events: seq<Event>, i: int ::
      IsRun(pipeline, states, events) && 0 <= i < |states| && states[i].pc == Returned(IdleTimeout) ==>
        Ids(pipeline) <= states[i].sh.completed
  }

  /** Validation does not check it, but acyclicity is exactly what a clean idle exit needs. */
  lemma FinishesIffAcyclic(pipeline: seq<Node>)
    requires DistinctIds(pipeline) && ClosedDeps(pipeline)
    ensures AlwaysFinishes(pipeline) <==> Acyclic(pipeline)
  {
    if Acyclic(pipeline) {
      forall states: seq<State>, events: seq<Event>, i: int | IsRun(pipeline, states, events) && 0 <= i < |states| && states[i].pc == Returned(IdleTimeout)
        ensures Ids(pipeline) <= states[i].sh.completed
      {
        IdleExitDone(pipeline, states, events, i);
      }
    } else {
      var p :| IsCycle(pipeline, p);
      var states, events := RunsToIdle(pipeline, [Init(pipeline)], []);
      var s := states[|events|];
      CycleNeverRuns(pipeline, states, events, |events|, p);
      RunInv(pipeline, states, events, |events|);
      assert Depends(pipeline, p[0], p[1]);
      assert p[0] in Ids(pipeline) && p[0] in ToSet(p) && p[0] !in ToSet(s.started);
      assert p[0] !in s.sh.completed;
    }
  }

  // The idle race -----------------------------------------------------------------------------------

  /**
   A branch merged after the last pick can be acknowledged and still never run: the handler
   holds the lock while the loop waits, and the loop returns before the wake-up arrives.
   */
  lemma AcknowledgedButNeverRun() returns (pipeline: seq<Node>, states: seq<State>, events: seq<Event>)
    ensures WellFormed(pipeline) && IsRun(pipeline, states, events)
    ensures var s := states[|events|];
            && s.pc == Returned(IdleTimeout)
            && 0 in s.conns && s.conns[0].replies == [Ack]
            && s.conns[0].requests == [Branch("", [Node("late", ["true"], 0, None, [])])]
            && "late" in Ids(s.sh.nodes) - s.sh.completed
  {
    pipeline := [];
    OrderIsWellFormed(pipeline);
    var s3;
    states, events, s3 := EmptyPipelineWaits();
    var late := Node("late", ["true"], 0, None, []);
    LoneNodeAccepted(late);
    var req := Branch("", [late]);
    var t0, t1, t2, t3 := BranchThenExit(s3, req);
    ExtendRun(pipeline, states, events, Receive(0, req, true), t0);
    states, events := states + [t0], events + [Receive(0, req, true)];
    ExtendRun(pipeline, states, events, IdleExit, t1);
    states, events := states + [t1], events + [IdleExit];
    ExtendRun(pipeline, states, events, HandlerSignal(0), t2);
    states, events := states + [t2], events + [HandlerSignal(0)];
    ExtendRun(pipeline, states, events, WriteReply(0, true), t3);
    states, events := states + [t3], events + [WriteReply(0, true)];
    assert late in t3.sh.nodes;
  }

  lemma EmptyPipelineWaits() returns (states: seq<State>, events: seq<Event>, last: State)
    ensures IsRun([], states, events) && last == states[|events|]
    ensures last == Init([]).(pc := IdleWait, conns := map[0 := Conn([], [], {}, Reading)])
  {
    var s0 := Init([]);
    var s1 := s0.(pc := Picked(None, 0));
    var s2 := s0.(pc := IdleWait);
    last := s2.(conns := map[0 := Conn([], [], {}, Reading)]);
    states, events := [s0, s1, s2, last], [Pick(None), Quiesce, Connect(0)];
  }

  /** The handler merges, the loop times out, then the handler signals and acknowledges. */
  lemma BranchThenExit(s: State, req: Request) returns (t0: State, t1: State, t2: State, t3: State)
    requires s.pc.IdleWait? && s.conns == map[0 := Conn([], [], {}, Reading)]
    requires req.Branch? && Accepts(s.sh.nodes, req.add)
    ensures Next(s, t0, Receive(0, req, true)) && Next(t0, t1, IdleExit)
    ensures Next(t1, t2, HandlerSignal(0)) && Next(t2, t3, WriteReply(0, true))
    ensures t3.pc == Returned(IdleTimeout) && t3.sh == s.sh.Merge(req.add).Signal()
    ensures t3.conns == map[0 := Conn([req], [Ack], {}, Reading)]
  {
    var sh := s.sh.Merge(req.add);
    t0 := s.(sh := sh, conns := map[0 := Conn([req], [], {}, Notify(Ack))]);
    t1 := t0.(pc := Returned(IdleTimeout));
    t2 := t1.(sh := sh.Signal(), conns := map[0 := Conn([req], [], {}, Replying(Ack))]);
    t3 := t2.(conns := map[0 := Conn([req], [Ack], {}, Reading)]);
    assert [] + [req] == [req] && [] + [Ack] == [Ack];
  }

  lemma LoneNodeAccepted(n: Node)
    requires n.cmd != [] && n.dependsOn == []
    ensures Accepts([], [n]) && [] + [n] == [n]
  {
    var one := [n];
    assert [] + one == one && Ids([]) == {};
    assert DepsFirst(one);
    OrderIsWellFormed(one);
  }
}
