/**
 `Runner.Run`: executes a pipeline sequentially in the order `TopoOrder` returns, recording a
 timing per command and stopping at the first thing that goes wrong.
 */
module Runner {
  import opened Dag
  import TopoSort

  /** What happens when a node's turn comes; decided by the environment. */
  datatype Turn =
    | ContextDone
    | NoCpus
    | NoCommand
    | Exited(code: int)
    | NotStarted
    | Succeeded
  {
    /** Did `cmd.Run` get called? */
    predicate Ran() {
      Exited? || NotStarted? || Succeeded?
    }

    function ExitCode(): int
      requires Ran()
    {
      match this
      case Exited(code) => code
      case NotStarted => -1
      case Succeeded => 0
    }
  }

  datatype Timing = Timing(id: string, exitCode: int)

  datatype RunResult = Finished | TopologyRequired | NotADag | Stopped(id: string, why: Turn) | PromWriteFailed

  /** The timings list the executed nodes in order, each before the last having succeeded. */
  ghost predicate Recorded(executed: seq<Node>, timings: seq<Timing>, turn: (nat, Node) -> Turn) {
    && |timings| == |executed|
    && (forall k :: 0 <= k < |executed| ==>
          timings[k].id == executed[k].id && turn(k, executed[k]).Ran() && timings[k].exitCode == turn(k, executed[k]).ExitCode())
    && (forall k :: 0 <= k < |executed| - 1 ==> turn(k, executed[k]).Succeeded?)
  }

  method Run(haveTopology: bool, nodes: seq<Node>, turn: (nat, Node) -> Turn, promOk: bool)
    returns (r: RunResult, timings: seq<Timing>, ghost order: seq<Node>, ghost executed: seq<Node>)
    ensures r.TopologyRequired? <==> !haveTopology
    ensures r.NotADag? <==> haveTopology && !WellFormed(nodes)
    ensures r.TopologyRequired? || r.NotADag? ==> timings == [] && executed == []
    ensures !r.TopologyRequired? && !r.NotADag? ==>
              IsLinearExtension(nodes, order) && executed <= order && Recorded(executed, timings, turn)
    ensures r.Finished? || r.PromWriteFailed? <==>
            haveTopology && WellFormed(nodes) && forall k :: 0 <= k < |order| ==> turn(k, order[k]).Succeeded?
    ensures r.Finished? || r.PromWriteFailed? ==>
              executed == order && (r.Finished? <==> promOk) && forall k :: 0 <= k < |timings| ==> timings[k] == Timing(order[k].id, 0)
    ensures r.Stopped? ==>
              var pos := if r.why.Exited? || r.why.NotStarted? then |timings| - 1 else |timings|;
              && |timings| == |executed| && 0 <= pos < |order|
              && order[pos].id == r.id && r.why == turn(pos, order[pos]) && !r.why.Succeeded?
              && (forall k :: 0 <= k < pos ==> timings[k] == Timing(order[k].id, 0))
              && (r.why.Exited? ==> timings[pos] == Timing(r.id, r.why.code))
              && (r.why.NotStarted? ==> timings[pos] == Timing(r.id, -1))
  {
    timings, executed, order := [], [], [];
    if !haveTopology {
      return TopologyRequired, timings, order, executed;
    }
    var sorted := TopoSort.TopoOrder(nodes);
    if sorted.Err? {
      return NotADag, timings, order, executed;
    }
    order := sorted.value;
    for k := 0 to |sorted.value|
      invariant executed == order[..k] && Recorded(executed, timings, turn)
      invariant forall i :: 0 <= i < k ==> turn(i, order[i]).Succeeded? && timings[i] == Timing(order[i].id, 0)
    {
      var n := sorted.value[k];
      var t := turn(k, n);
      if !t.Ran() {
        return Stopped(n.id, t), timings, order, executed;
      }
      timings := timings + [Timing(n.id, t.ExitCode())];
      executed := executed + [n];
      assert executed == order[..k + 1];
      if !t.Succeeded? {
        return Stopped(n.id, t), timings, order, executed;
      }
    }
    r := if promOk then Finished else PromWriteFailed;
  }

  /** No node runs before everything it depends on has run and succeeded. */
  lemma DependenciesSucceededFirst(nodes: seq<Node>, order: seq<Node>, executed: seq<Node>, timings: seq<Timing>,
                                   turn: (nat, Node) -> Turn, k: nat, d: string) returns (j: nat)
    requires IsLinearExtension(nodes, order) && executed <= order && Recorded(executed, timings, turn)
    requires k < |executed| && d in executed[k].dependsOn
    ensures j < k && timings[j] == Timing(d, 0)
  {
    assert executed[k] == order[k];
    var n :| n in order[..k] && n.id == d;
    j :| 0 <= j < k && order[j] == n;
    assert executed[j] == order[j];
    assert turn(j, executed[j]).Succeeded?;
  }

  /** A node that depends, however indirectly, on the last executed one has not run. */
  lemma NothingDownstreamRuns(nodes: seq<Node>, order: seq<Node>, executed: seq<Node>, p: seq<string>, k: nat)
    requires DistinctIds(nodes) && IsLinearExtension(nodes, order) && executed <= order
    requires |p| >= 2 && IsChain(nodes, p) && executed != [] && p[|p| - 1] == executed[|executed| - 1].id
    requires k < |executed|
    ensures executed[k].id != p[0]
  {
    assert forall i :: 0 <= i < |executed| ==> executed[i] == order[i];
    forall n: Node
      ensures n in order <==> n in nodes
    {
      assert n in multiset(order) <==> n in multiset(nodes);
    }
    SameMembers(order, nodes);
    IdSeqSet(order);
    IdSeqSet(nodes);
    assert |order| == |multiset(order)| == |nodes|;
    if executed[k].id == p[0] {
      forall i | 0 <= i < |p| - 1
        ensures Depends(order, p[i], p[i + 1])
      {
        assert Depends(nodes, p[i], p[i + 1]);
      }
      var m := ChainDescends(order, p, k);
      assert false;
    }
  }
}
