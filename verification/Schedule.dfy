/**
 The order in which the coordinator executes a pipeline nobody branches: the lexicographically
 least linear extension, whatever order the nodes are listed in.
 */
module Schedule {
  import opened Collections
  import opened Dag
  import opened Text
  import opened TextLaws
  import opened PlasmaGraph
  import opened Coordinator
  import opened CoordinatorSafety

  /** Lexicographic order on id sequences, a prefix coming first. */
  ghost predicate LexLeq(a: seq<string>, b: seq<string>) {
    a == [] || (b != [] && (StrLess(a[0], b[0]) || (a[0] == b[0] && LexLeq(a[1..], b[1..]))))
  }

  /** The id sequences agree up to position `k`, where `a` has the id that comes first as a string. */
  ghost predicate LexLessAt(a: seq<string>, b: seq<string>, k: nat) {
    k < |a| && k < |b| && a[..k] == b[..k] && exists p :: LessAt(a[k], b[k], p)
  }

  /** The order on id sequences spelled out: a prefix, or smaller at the first difference. */
  lemma {:induction false} LexLeqIff(a: seq<string>, b: seq<string>)
    ensures LexLeq(a, b) <==> a <= b || exists k :: LexLessAt(a, b, k)
    decreases |a|
  {
    if a != [] && b != [] {
      assert a == [a[0]] + a[1..] && b == [b[0]] + b[1..];
      StrLessIff(a[0], b[0]);
      LexLeqIff(a[1..], b[1..]);
      if StrLess(a[0], b[0]) {
        assert LexLessAt(a, b, 0);
      }
      if k: nat :| a[0] == b[0] && LexLessAt(a[1..], b[1..], k) {
        assert a[..k + 1] == [a[0]] + a[1..][..k] && b[..k + 1] == [b[0]] + b[1..][..k];
        assert LexLessAt(a, b, k + 1);
      }
      if k: nat :| LexLessAt(a, b, k) {
        if k > 0 {
          assert a[0] == a[..k][0] && b[0] == b[..k][0];
          assert a[1..][..k - 1] == a[..k][1..] && b[1..][..k - 1] == b[..k][1..];
          assert LexLessAt(a[1..], b[1..], k - 1);
        }
      }
    }
  }

  /** Each id is the scheduler's pick once the ids before it are completed. */
  ghost predicate IsGreedy(nodes: seq<Node>, ids: seq<string>) {
    forall k :: 0 <= k < |ids| ==> PickedAt(nodes, ToSet(ids[..k]), ids[k])
  }

  ghost predicate PickedAt(nodes: seq<Node>, completed: set<string>, id: string) {
    exists n: Node :: n.id == id && IsPick(nodes, completed, {}, Some(n))
  }

  lemma GreedySnoc(nodes: seq<Node>, ids: seq<string>, id: string)
    requires IsGreedy(nodes, ids) && PickedAt(nodes, ToSet(ids), id)
    ensures IsGreedy(nodes, ids + [id])
  {
    forall k | 0 <= k < |ids| + 1
      ensures PickedAt(nodes, ToSet((ids + [id])[..k]), (ids + [id])[k])
    {
      if k < |ids| {
        assert (ids + [id])[..k] == ids[..k];
        assert PickedAt(nodes, ToSet(ids[..k]), ids[k]);
      } else {
        assert (ids + [id])[..k] == ids;
      }
    }
  }

  // Greedy is least ------------------------------------------------------------------------

  /** The next element of any linear extension is ready once its prefix is completed. */
  lemma ExtensionElementReady(order: seq<Node>, k: nat)
    requires DistinctIds(order) && DepsFirst(order) && k < |order|
    ensures Ready(order[k], ToSet(IdSeq(order)[..k]), {})
  {
    var done := ToSet(IdSeq(order)[..k]);
    forall d | d in order[k].dependsOn
      ensures d in done
    {
      var n :| n in order[..k] && n.id == d;
      var j :| 0 <= j < k && order[j] == n;
      assert IdSeq(order)[..k][j] == d;
    }
    assert forall j :: 0 <= j < k ==> IdSeq(order)[..k][j] == order[j].id != order[k].id;
  }

  /** After a common prefix, no extension continues with a smaller id than the greedy order does. */
  lemma GreedyHead(nodes: seq<Node>, ids: seq<string>, order: seq<Node>, k: nat)
    requires IsGreedy(nodes, ids) && DistinctIds(order) && DepsFirst(order) && forall n :: n in order <==> n in nodes
    requires k < |ids| && k <= |order| && ids[..k] == IdSeq(order)[..k]
    ensures k < |order| && !StrLess(order[k].id, ids[k])
  {
    var done := ToSet(ids[..k]);
    assert PickedAt(nodes, done, ids[k]);
    var n: Node :| n.id == ids[k] && IsPick(nodes, done, {}, Some(n));
    var j :| 0 <= j < |order| && order[j] == n;
    assert forall m :: 0 <= m < k ==> ids[..k][m] == order[m].id;
    assert k < |order|;
    ExtensionElementReady(order, k);
    assert order[k] in nodes;
  }

  lemma {:induction false} GreedyFromPrefix(nodes: seq<Node>, ids: seq<string>, order: seq<Node>, k: nat)
    requires IsGreedy(nodes, ids) && DistinctIds(order) && DepsFirst(order) && forall n :: n in order <==> n in nodes
    requires k <= |ids| && k <= |order| && ids[..k] == IdSeq(order)[..k]
    ensures LexLeq(ids[k..], IdSeq(order)[k..])
    decreases |ids| - k
  {
    var other := IdSeq(order);
    if k < |ids| {
      GreedyHead(nodes, ids, order, k);
      StrLessTrichotomy(other[k], ids[k]);
      if other[k] == ids[k] {
        assert ids[..k + 1] == ids[..k] + [ids[k]] && other[..k + 1] == other[..k] + [other[k]];
        GreedyFromPrefix(nodes, ids, order, k + 1);
        assert ids[k..][1..] == ids[k + 1..] && other[k..][1..] == other[k + 1..];
      }
    }
  }

  lemma PermutationMembers(a: seq<Node>, b: seq<Node>)
    requires multiset(a) == multiset(b) && DistinctIds(b)
    ensures forall n :: n in a <==> n in b
    ensures |a| == |b| && Ids(a) == Ids(b) && DistinctIds(a)
  {
    forall n: Node
      ensures n in a <==> n in b
    {
      assert n in multiset(a) <==> n in multiset(b);
    }
    assert |a| == |multiset(a)| == |multiset(b)| == |b|;
    SameMembers(a, b);
    IdSeqSet(a);
    IdSeqSet(b);
  }

  /** No linear extension comes before the greedy order. */
  lemma GreedyIsLeast(nodes: seq<Node>, ids: seq<string>, order: seq<Node>)
    requires DistinctIds(nodes) && IsGreedy(nodes, ids) && IsLinearExtension(nodes, order)
    ensures LexLeq(ids, IdSeq(order))
  {
    PermutationMembers(order, nodes);
    GreedyFromPrefix(nodes, ids, order, 0);
    assert ids[0..] == ids && IdSeq(order)[0..] == IdSeq(order);
  }

  /** The greedy order depends on the set of nodes, not on how they are listed. */
  lemma {:induction false} GreedyUnique(a: seq<Node>, b: seq<Node>, ids: seq<string>, ids': seq<string>)
    requires DistinctIds(a) && forall n :: n in a <==> n in b
    requires IsGreedy(a, ids) && IsGreedy(b, ids') && |ids| == |ids'|
    ensures ids == ids'
  {
    if ids != [] {
      var k := |ids| - 1;
      GreedyPrefix(a, ids, k);
      GreedyPrefix(b, ids', k);
      GreedyUnique(a, b, ids[..k], ids'[..k]);
      SamePick(a, b, ToSet(ids[..k]), ids[k], ids'[k]);
      assert ids == ids[..k] + [ids[k]] && ids' == ids'[..k] + [ids'[k]];
    }
  }

  lemma GreedyPrefix(nodes: seq<Node>, ids: seq<string>, k: nat)
    requires IsGreedy(nodes, ids) && k <= |ids|
    ensures IsGreedy(nodes, ids[..k])
  {
    forall j | 0 <= j < k
      ensures PickedAt(nodes, ToSet(ids[..k][..j]), ids[..k][j])
    {
      assert ids[..k][..j] == ids[..j];
      assert PickedAt(nodes, ToSet(ids[..j]), ids[j]);
    }
  }

  lemma SamePick(a: seq<Node>, b: seq<Node>, done: set<string>, x: string, y: string)
    requires DistinctIds(a) && (forall n :: n in a <==> n in b) && PickedAt(a, done, x) && PickedAt(b, done, y)
    ensures x == y
  {
    var n: Node :| n.id == x && IsPick(a, done, {}, Some(n));
    var m: Node :| m.id == y && IsPick(b, done, {}, Some(m));
    PickUnique(a, b, done, {}, Some(n), Some(m));
  }

  /** The nodes behind a greedy id sequence, in that order. */
  ghost function NodesOf(nodes: seq<Node>, ids: seq<string>): (r: seq<Node>)
    requires IsGreedy(nodes, ids)
    ensures |r| == |ids|
    ensures forall k :: 0 <= k < |ids| ==> r[k].id == ids[k] && IsPick(nodes, ToSet(ids[..k]), {}, Some(r[k]))
  {
    seq(|ids|, k requires 0 <= k < |ids| =>
      assert PickedAt(nodes, ToSet(ids[..k]), ids[k]);
      var n: Node :| n.id == ids[k] && IsPick(nodes, ToSet(ids[..k]), {}, Some(n)); n)
  }

  /** A greedy sequence that covers the graph is the id sequence of a linear extension. */
  lemma GreedyIsExtension(nodes: seq<Node>, ids: seq<string>)
    requires DistinctIds(nodes) && IsGreedy(nodes, ids) && |ids| == |nodes|
    ensures IsLinearExtension(nodes, NodesOf(nodes, ids)) && IdSeq(NodesOf(nodes, ids)) == ids
  {
    var order := NodesOf(nodes, ids);
    forall i, j | 0 <= i < j < |order|
      ensures order[i].id != order[j].id
    {
      assert ids[..j][i] == ids[i];
    }
    DistinctNodesPermute(order, nodes);
    forall k, d | 0 <= k < |order| && d in order[k].dependsOn
      ensures d in Ids(order[..k])
    {
      assert Ready(order[k], ToSet(ids[..k]), {});
      var j :| 0 <= j < k && ids[..k][j] == d;
      assert order[j] in order[..k];
    }
  }

  // Branch-free runs ---------------------------------------------------------------------------

  ghost predicate NoBranches(events: seq<Event>) {
    forall i :: 0 <= i < |events| ==> !(events[i].Receive? && events[i].req.Branch?)
  }

  ghost predicate GreedyInv(s: State) {
    && IsGreedy(s.sh.nodes, s.started)
    && (s.pc.Picked? && s.pc.next.Some? ==> IsPick(s.sh.nodes, s.sh.completed, {}, s.pc.next))
  }

  lemma GreedyMark(s: State, t: State)
    requires Inv(s) && GreedyInv(s) && Next(s, t, Mark)
    ensures GreedyInv(t) && t.sh.nodes == s.sh.nodes
  {
    var n := s.pc.next.value;
    assert ToSet(s.started) == s.sh.completed + {} + {};
    assert PickedAt(s.sh.nodes, ToSet(s.started), n.id);
    GreedySnoc(s.sh.nodes, s.started, n.id);
  }

  lemma GreedyStep(s: State, t: State, e: Event)
    requires Inv(s) && GreedyInv(s) && Next(s, t, e) && !(e.Receive? && e.req.Branch?)
    ensures GreedyInv(t) && t.sh.nodes == s.sh.nodes
  {
    if e.Mark? {
      GreedyMark(s, t);
    } else {
      assert t.started == s.started && t.sh.nodes == s.sh.nodes;
      assert t.pc.Picked? ==> e.Pick? || t.sh.completed == s.sh.completed;
    }
  }

  lemma {:induction false} RunGreedy(pipeline: seq<Node>, states: seq<State>, events: seq<Event>, i: nat)
    requires DistinctIds(pipeline) && ClosedDeps(pipeline) && IsRun(pipeline, states, events) && NoBranches(events)
    requires i < |states|
    ensures Inv(states[i]) && GreedyInv(states[i]) && states[i].sh.nodes == pipeline
  {
    RunInv(pipeline, states, events, i);
    if i > 0 {
      RunGreedy(pipeline, states, events, i - 1);
      GreedyStep(states[i - 1], states[i], events[i - 1]);
    }
  }

  /**
   With no branches, whatever else interleaves, the executed ids precede every linear extension
   at every moment; once everything is completed they are one.
   */
  lemma ExecutionIsLeast(pipeline: seq<Node>, states: seq<State>, events: seq<Event>, i: nat)
    requires WellFormed(pipeline) && IsRun(pipeline, states, events) && NoBranches(events) && i < |states|
    ensures forall order :: IsLinearExtension(pipeline, order) ==> LexLeq(states[i].started, IdSeq(order))
    ensures states[i].sh.completed == Ids(pipeline) ==>
              exists order :: IsLinearExtension(pipeline, order) && IdSeq(order) == states[i].started
  {
    var s := states[i];
    RunGreedy(pipeline, states, events, i);
    forall order | IsLinearExtension(pipeline, order)
      ensures LexLeq(s.started, IdSeq(order))
    {
      GreedyIsLeast(pipeline, s.started, order);
    }
    if s.sh.completed == Ids(pipeline) {
      assert ToSet(s.started) == Ids(pipeline);
      ToSetCardinality(s.started);
      IdSeqSet(pipeline);
      GreedyIsExtension(pipeline, s.started);
    }
  }

  /** Two listings of the same nodes execute in the same order. */
  lemma ExecutionIgnoresListing(p: seq<Node>, states: seq<State>, events: seq<Event>, i: nat,
                                p': seq<Node>, states': seq<State>, events': seq<Event>, i': nat)
    requires WellFormed(p) && multiset(p) == multiset(p')
    requires IsRun(p, states, events) && NoBranches(events) && i < |states|
    requires IsRun(p', states', events') && NoBranches(events') && i' < |states'|
    requires |states[i].started| == |states'[i'].started|
    ensures states[i].started == states'[i'].started
  {
    PermutationMembers(p', p);
    SameMembers(p', p);
    RunGreedy(p, states, events, i);
    RunGreedy(p', states', events', i');
    GreedyUnique(p, p', states[i].started, states'[i'].started);
  }

  // The loop without interference ------------------------------------------------------------------

  /** One turn of the loop: pick, mark, execute, finish, signal. */
  method RunOne(c: Fields, exec: string -> bool) returns (next: Option<Node>, ok: bool)
    requires c.running == {}
    modifies c
    ensures IsPick(old(c.nodes), old(c.completed), {}, next)
    ensures c.nodes == old(c.nodes) && c.samples == old(c.samples) && c.running == {}
    ensures ok <==> next.Some? && exec(next.value.id)
    ensures c.completed == old(c.completed) + if ok then {next.value.id} else {}
  {
    var runningCnt;
    next, runningCnt := c.Pick();
    ok := false;
    if next.Some? {
      c.MarkRunning(next.value);
      ok := exec(next.value.id);
      c.Finish(next.value, !ok);
      if ok {
        c.SignalWake();
      }
    }
  }

  /** What the executed ids look like while the loop is draining the graph. */
  ghost predicate DrainInv(nodes: seq<Node>, completed: set<string>, started: seq<string>, exec: string -> bool) {
    && completed == ToSet(started) <= Ids(nodes) && Distinct(started)
    && forall k :: 0 <= k < |started| ==> exec(started[k])
  }

  lemma DrainStep(nodes: seq<Node>, completed: set<string>, started: seq<string>, exec: string -> bool, n: Node)
    requires DrainInv(nodes, completed, started, exec) && IsPick(nodes, completed, {}, Some(n))
    ensures PickedAt(nodes, ToSet(started), n.id)
    ensures exec(n.id) ==> DrainInv(nodes, completed + {n.id}, started + [n.id], exec)
    ensures |Ids(nodes) - (completed + {n.id})| < |Ids(nodes) - completed|
  {
    assert n in nodes && n.id !in completed;
    OneFewerLeft(Ids(nodes), completed, n.id);
    if exec(n.id) {
      DrainKeeps(nodes, completed, started, exec, n.id);
    }
  }

  lemma DrainKeeps(nodes: seq<Node>, completed: set<string>, started: seq<string>, exec: string -> bool, id: string)
    requires DrainInv(nodes, completed, started, exec) && id in Ids(nodes) && id !in completed && exec(id)
    ensures DrainInv(nodes, completed + {id}, started + [id], exec)
  {
    assert ToSet(started + [id]) == ToSet(started) + {id};
    assert id !in started;
  }

  lemma DrainedAll(nodes: seq<Node>, completed: set<string>, started: seq<string>, exec: string -> bool)
    requires WellFormed(nodes) && DrainInv(nodes, completed, started, exec) && IsPick(nodes, completed, {}, None)
    ensures completed == Ids(nodes) && |started| == |nodes|
  {
    if !(Ids(nodes) <= completed) {
      Progress(nodes, completed, None);
    }
    ToSetCardinality(started);
    IdSeqSet(nodes);
  }

  /**
   The loop run without interference until nothing is runnable or a command fails (`exec` says
   which commands succeed). The unfinished-node count is the termination measure.
   */
  method DrainLoop(c: Fields, exec: string -> bool) returns (failed: Option<string>, ghost started: seq<string>)
    requires WellFormed(c.nodes) && c.completed == {} && c.running == {}
    modifies c
    ensures c.nodes == old(c.nodes) && c.running == {} && c.samples == old(c.samples)
    ensures IsGreedy(c.nodes, started)
    ensures failed.None? ==> DrainInv(c.nodes, c.completed, started, exec) && c.completed == Ids(c.nodes) && |started| == |c.nodes|
    ensures failed.Some? ==> !exec(failed.value) && exists done :: started == done + [failed.value] && DrainInv(c.nodes, c.completed, done, exec)
  {
    started, failed := [], None;
    while true
      invariant c.nodes == old(c.nodes) && c.running == {} && c.samples == old(c.samples)
      invariant DrainInv(c.nodes, c.completed, started, exec) && IsGreedy(c.nodes, started)
      decreases |Ids(c.nodes) - c.completed|
    {
      ghost var completed := c.completed;
      var next, ok := RunOne(c, exec);
      if next.None? {
        assert c.completed == completed;
        DrainedAll(c.nodes, completed, started, exec);
        return;
      }
      DrainStep(c.nodes, completed, started, exec, next.value);
      GreedySnoc(c.nodes, started, next.value.id);
      if !ok {
        assert c.completed == completed;
        failed := Some(next.value.id);
        started := started + [next.value.id];
        return;
      }
      started := started + [next.value.id];
    }
  }
}
