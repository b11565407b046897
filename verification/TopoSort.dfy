/**
 `TopoOrder`: Kahn's algorithm over in-degree and successor maps, with a queue seeded in
 arbitrary (map iteration) order and one length comparison as its only acceptance test.
 */
module TopoSort {
  import opened Collections
  import opened Dag

  datatype GraphError = CycleOrUnresolved

  /** One dependency entry: `from` must run before `to`. Repeated entries are kept. */
  datatype Edge = Edge(from: string, to: string)

  /** How many entries still hold `x` back once the ids in `done` have been emitted. */
  ghost function Waiting(edges: seq<Edge>, x: string, done: set<string>): nat {
    if edges == [] then 0
    else
      var e := edges[|edges| - 1];
      Waiting(edges[..|edges| - 1], x, done) + if e.to == x && e.from !in done then 1 else 0
  }

  ghost function Successors(edges: seq<Edge>, d: string): seq<string> {
    if edges == [] then []
    else
      var e := edges[|edges| - 1];
      Successors(edges[..|edges| - 1], d) + if e.from == d then [e.to] else []
  }

  lemma WaitingSnoc(edges: seq<Edge>, e: Edge, x: string, done: set<string>)
    ensures Waiting(edges + [e], x, done) == Waiting(edges, x, done) + if e.to == x && e.from !in done then 1 else 0
    ensures Successors(edges + [e], x) == Successors(edges, x) + if e.from == x then [e.to] else []
  {
    assert (edges + [e])[..|edges|] == edges;
  }

  /** Emitting `id` releases each of its successors once per entry. */
  lemma {:induction false} WaitingAfterEmit(edges: seq<Edge>, x: string, done: set<string>, id: string)
    requires id !in done
    ensures Waiting(edges, x, done) == Waiting(edges, x, done + {id}) + multiset(Successors(edges, id))[x]
  {
    if edges != [] {
      WaitingAfterEmit(edges[..|edges| - 1], x, done, id);
    }
  }

  lemma {:induction false} WaitingZero(edges: seq<Edge>, x: string, done: set<string>)
    ensures Waiting(edges, x, done) == 0 <==> forall e :: e in edges && e.to == x ==> e.from in done
  {
    if edges != [] {
      var front := edges[..|edges| - 1];
      assert edges == front + [edges[|edges| - 1]];
      WaitingZero(front, x, done);
    }
  }

  lemma {:induction false} SuccessorsAreTargets(edges: seq<Edge>, d: string)
    ensures forall x :: x in Successors(edges, d) ==> Edge(d, x) in edges
  {
    if edges != [] {
      SuccessorsAreTargets(edges[..|edges| - 1], d);
    }
  }

  /** The recorded entries are exactly the dependencies of the nodes. */
  ghost predicate EdgesOf(edges: seq<Edge>, nodes: seq<Node>) {
    && (forall e :: e in edges ==> Depends(nodes, e.to, e.from))
    && (forall n, d :: n in nodes && d in n.dependsOn ==> Edge(d, n.id) in edges)
  }

  ghost predicate Counts(inDeg: map<string, int>, edges: seq<Edge>, done: set<string>) {
    forall x :: x in inDeg ==> inDeg[x] == Waiting(edges, x, done)
  }

  /** What the queue loop maintains between two pops. */
  ghost predicate QueueInv(ids: set<string>, edges: seq<Edge>, inDeg: map<string, int>, done: seq<string>, q: seq<string>) {
    && inDeg.Keys == ids
    && Distinct(done + q)
    && (forall x :: x in done + q <==> x in ids && inDeg[x] == 0)
    && Counts(inDeg, edges, ToSet(done))
    && (forall k, e :: 0 <= k < |done| && e in edges && e.to == done[k] ==> e.from in done[..k])
  }

  /** `inDeg` and `edges` tabulate the entries recorded so far. */
  ghost predicate Tables(inDeg: map<string, int>, edges: map<string, seq<string>>, log: seq<Edge>) {
    && Counts(inDeg, log, {})
    && (forall d :: Lookup(edges, d) == Successors(log, d))
  }

  lemma AddEntry(inDeg: map<string, int>, edges: map<string, seq<string>>, log: seq<Edge>, e: Edge)
    requires Tables(inDeg, edges, log) && e.to in inDeg
    ensures Tables(inDeg[e.to := inDeg[e.to] + 1], edges[e.from := Lookup(edges, e.from) + [e.to]], log + [e])
  {
    forall x: string {
      WaitingSnoc(log, e, x, {});
    }
  }

  /** The entries of one node: the inner loop over its dependencies. */
  method AddEntries(ghost nodes: seq<Node>, n: Node, inDeg0: map<string, int>, edges0: map<string, seq<string>>, ghost log0: seq<Edge>)
    returns (inDeg: map<string, int>, edges: map<string, seq<string>>, ghost log: seq<Edge>)
    requires n in nodes && n.id in inDeg0 && Tables(inDeg0, edges0, log0)
    ensures inDeg.Keys == inDeg0.Keys && Tables(inDeg, edges, log) && log0 <= log
    ensures forall k :: |log0| <= k < |log| ==> Depends(nodes, log[k].to, log[k].from)
    ensures forall d :: d in n.dependsOn ==> Edge(d, n.id) in log
  {
    inDeg, edges, log := inDeg0, edges0, log0;
    for j := 0 to |n.dependsOn|
      invariant inDeg.Keys == inDeg0.Keys && Tables(inDeg, edges, log) && log0 <= log
      invariant forall k :: |log0| <= k < |log| ==> Depends(nodes, log[k].to, log[k].from)
      invariant forall m :: 0 <= m < j ==> Edge(n.dependsOn[m], n.id) in log
    {
      var d := n.dependsOn[j];
      AddEntry(inDeg, edges, log, Edge(d, n.id));
      edges := edges[d := Lookup(edges, d) + [n.id]];
      inDeg := inDeg[n.id := inDeg[n.id] + 1];
      log := log + [Edge(d, n.id)];
    }
  }

  method BuildEdges(nodes: seq<Node>, inDeg0: map<string, int>)
    returns (inDeg: map<string, int>, edges: map<string, seq<string>>, ghost log: seq<Edge>)
    requires inDeg0.Keys == Ids(nodes) && forall x :: x in inDeg0 ==> inDeg0[x] == 0
    ensures inDeg.Keys == Ids(nodes) && Tables(inDeg, edges, log)
    ensures EdgesOf(log, nodes)
  {
    inDeg, edges, log := inDeg0, map[], [];
    for i := 0 to |nodes|
      invariant inDeg.Keys == Ids(nodes) && Tables(inDeg, edges, log)
      invariant forall k :: 0 <= k < |log| ==> Depends(nodes, log[k].to, log[k].from)
      invariant forall k, d :: 0 <= k < i && d in nodes[k].dependsOn ==> Edge(d, nodes[k].id) in log
    {
      inDeg, edges, log := AddEntries(nodes, nodes[i], inDeg, edges, log);
    }
  }

  /** `for id, deg := range inDeg`: the ids of in-degree zero, in whatever order the map yields them. */
  method Seed(inDeg: map<string, int>) returns (q: seq<string>)
    ensures Distinct(q)
    ensures forall x :: x in q <==> x in inDeg && inDeg[x] == 0
  {
    q := [];
    var unseen := inDeg.Keys;
    while unseen != {}
      invariant unseen <= inDeg.Keys && Distinct(q)
      invariant forall x :: x in q <==> x in inDeg && x !in unseen && inDeg[x] == 0
      decreases |unseen|
    {
      var id :| id in unseen;
      unseen := unseen - {id};
      if inDeg[id] == 0 {
        q := q + [id];
      }
    }
  }

  /** Between two decrements: `rest` are the successor entries of the popped id still to be applied. */
  ghost predicate ReleaseInv(ids: set<string>, log: seq<Edge>, inDeg: map<string, int>, done: seq<string>, q: seq<string>,
                             rest: seq<string>)
  {
    && inDeg.Keys == ids
    && Distinct(done + q)
    && (forall x :: x in done + q <==> x in ids && inDeg[x] == 0)
    && (forall x :: x in ids ==> inDeg[x] == Waiting(log, x, ToSet(done)) + multiset(rest)[x])
  }

  lemma PopHead(ids: set<string>, log: seq<Edge>, inDeg: map<string, int>, done: seq<string>, id: string, q: seq<string>)
    requires QueueInv(ids, log, inDeg, done, [id] + q)
    ensures id in ids
    ensures ReleaseInv(ids, log, inDeg, done + [id], q, Successors(log, id))
    ensures forall e :: e in log && e.to == id ==> e.from in done
  {
    var all := done + ([id] + q);
    assert (done + [id]) + q == all;
    assert all[|done|] == id;
    assert forall i :: 0 <= i < |done| ==> done[i] == all[i];
    assert ToSet(done + [id]) == ToSet(done) + {id};
    assert id !in ToSet(done);
    forall x: string {
      WaitingAfterEmit(log, x, ToSet(done), id);
    }
    WaitingZero(log, id, ToSet(done));
  }

  /** One pop: decrement the in-degrees of the successors, queueing those that reach zero. */
  method Release(ghost ids: set<string>, ghost log: seq<Edge>, inDeg0: map<string, int>, ghost done: seq<string>,
                 q0: seq<string>, succs: seq<string>)
    returns (inDeg: map<string, int>, q: seq<string>)
    requires ReleaseInv(ids, log, inDeg0, done, q0, succs)
    requires forall x :: x in succs ==> x in ids
    ensures ReleaseInv(ids, log, inDeg, done, q, [])
  {
    inDeg, q := inDeg0, q0;
    assert succs[0..] == succs;
    for k := 0 to |succs|
      invariant ReleaseInv(ids, log, inDeg, done, q, succs[k..])
    {
      var succ := succs[k];
      assert succs[k..] == [succ] + succs[k + 1..];
      inDeg := inDeg[succ := inDeg[succ] - 1];
      if inDeg[succ] == 0 {
        assert done + (q + [succ]) == (done + q) + [succ];
        q := q + [succ];
      }
    }
  }

  lemma AfterPop(ids: set<string>, log: seq<Edge>, inDeg0: map<string, int>, inDeg: map<string, int>,
                 done: seq<string>, id: string, q0: seq<string>, q: seq<string>)
    requires QueueInv(ids, log, inDeg0, done, [id] + q0)
    requires ReleaseInv(ids, log, inDeg, done + [id], q, [])
    requires forall e :: e in log && e.to == id ==> e.from in done
    ensures QueueInv(ids, log, inDeg, done + [id], q)
  {
    var done' := done + [id];
    forall k, e | 0 <= k < |done'| && e in log && e.to == done'[k]
      ensures e.from in done'[..k]
    {
      if k < |done| {
        assert done[k] == done'[k];
        assert done'[..k] == done[..k];
      } else {
        assert done'[..k] == done;
      }
    }
  }

  /** Emitting the head of the queue keeps the queue invariant. */
  method Pop(ghost ids: set<string>, ghost log: seq<Edge>, inDeg0: map<string, int>, ghost done: seq<string>,
             ghost id: string, q0: seq<string>, succs: seq<string>)
    returns (inDeg: map<string, int>, q: seq<string>)
    requires QueueInv(ids, log, inDeg0, done, [id] + q0)
    requires succs == Successors(log, id) && forall e :: e in log ==> e.to in ids
    ensures QueueInv(ids, log, inDeg, done + [id], q)
    ensures id in ids && |done| + 1 <= |ids|
  {
    PopHead(ids, log, inDeg0, done, id, q0);
    SuccessorsAreTargets(log, id);
    inDeg, q := Release(ids, log, inDeg0, done + [id], q0, succs);
    AfterPop(ids, log, inDeg0, inDeg, done, id, q0, q);
    EmittedBound(ids, log, inDeg, done + [id], q);
  }

  /** The nodes emitted are those of the ids emitted. */
  ghost predicate Emitted(byID: map<string, Node>, done: seq<string>, ordered: seq<Node>) {
    |ordered| == |done| && forall k :: 0 <= k < |done| ==> done[k] in byID && ordered[k] == byID[done[k]]
  }

  lemma EmitOne(byID: map<string, Node>, done: seq<string>, ordered: seq<Node>, id: string)
    requires Emitted(byID, done, ordered) && id in byID
    ensures Emitted(byID, done + [id], ordered + [byID[id]])
  {
  }

  /** The queue loop: emits ids until nothing is left with in-degree zero. */
  method Drain(byID: map<string, Node>, inDeg0: map<string, int>, edges: map<string, seq<string>>,
               q0: seq<string>, ghost log: seq<Edge>)
    returns (ordered: seq<Node>, ghost inDeg1: map<string, int>, ghost done: seq<string>)
    requires QueueInv(byID.Keys, log, inDeg0, [], q0) && forall e :: e in log ==> e.to in byID.Keys
    requires forall d :: Lookup(edges, d) == Successors(log, d)
    ensures QueueInv(byID.Keys, log, inDeg1, done, []) && Emitted(byID, done, ordered)
  {
    var inDeg, q := inDeg0, q0;
    ordered, done := [], [];
    while |q| > 0
      invariant QueueInv(byID.Keys, log, inDeg, done, q) && Emitted(byID, done, ordered)
      decreases |byID.Keys| - |done|
    {
      var id := q[0];
      assert q == [id] + q[1..];
      inDeg, q := Pop(byID.Keys, log, inDeg, done, id, q[1..], Lookup(edges, id));
      EmitOne(byID, done, ordered, id);
      ordered := ordered + [byID[id]];
      done := done + [id];
    }
    inDeg1 := inDeg;
  }

  method TopoOrder(nodes: seq<Node>) returns (r: Result<seq<Node>, GraphError>)
    ensures r.Ok? <==> WellFormed(nodes)
    ensures r.Ok? ==> IsLinearExtension(nodes, r.value)
  {
    var byID: map<string, Node> := map[];
    var inDeg: map<string, int> := map[];
    for i := 0 to |nodes|
      invariant byID.Keys == inDeg.Keys == Ids(nodes[..i])
      invariant forall x :: x in byID ==> byID[x] in nodes && byID[x].id == x
      invariant forall x :: x in inDeg ==> inDeg[x] == 0
    {
      var n := nodes[i];
      assert nodes[..i + 1] == nodes[..i] + [n];
      byID := byID[n.id := n];
      if n.id !in inDeg {
        inDeg := inDeg[n.id := 0];
      }
    }
    assert nodes[..|nodes|] == nodes;
    var edges;
    ghost var log;
    inDeg, edges, log := BuildEdges(nodes, inDeg);
    var q := Seed(inDeg);
    assert [] + q == q && ToSet<string>([]) == {};
    var ordered;
    ghost var inDeg1, done;
    ordered, inDeg1, done := Drain(byID, inDeg, edges, q, log);
    Outcome(nodes, log, inDeg1, done, ordered);
    if |ordered| != |nodes| {
      return Err(CycleOrUnresolved);
    }
    return Ok(ordered);
  }

  lemma EmittedBound(ids: set<string>, log: seq<Edge>, inDeg: map<string, int>, done: seq<string>, q: seq<string>)
    requires QueueInv(ids, log, inDeg, done, q)
    ensures |done| <= |ids| && ToSet(done) <= ids && Distinct(done)
  {
    forall x | x in done
      ensures x in ids
    {
      assert x in done + q;
    }
    assert forall i :: 0 <= i < |done| ==> done[i] == (done + q)[i];
    ToSetCardinality(done);
    SubsetCardinality(ToSet(done), ids);
  }

  /** When the queue runs dry, comparing lengths decides distinctness, closure and acyclicity together. */
  lemma Outcome(nodes: seq<Node>, log: seq<Edge>, inDeg: map<string, int>, done: seq<string>, ordered: seq<Node>)
    requires QueueInv(Ids(nodes), log, inDeg, done, []) && EdgesOf(log, nodes)
    requires |ordered| == |done|
    requires forall k :: 0 <= k < |done| ==> ordered[k] in nodes && ordered[k].id == done[k]
    ensures |ordered| == |nodes| <==> WellFormed(nodes)
    ensures |ordered| == |nodes| ==> IsLinearExtension(nodes, ordered)
  {
    EmittedBound(Ids(nodes), log, inDeg, done, []);
    IdSeqSet(nodes);
    if |ordered| == |nodes| {
      assert DistinctIds(ordered);
      DistinctNodesPermute(ordered, nodes);
      OrderedDepsFirst(nodes, log, done, ordered);
      OrderIsWellFormed(ordered);
      SameMembers(ordered, nodes);
    } else if WellFormed(nodes) {
      var c := StuckMeansCycle(nodes, log, inDeg, done);
      assert false;
    }
  }

  lemma OrderedDepsFirst(nodes: seq<Node>, log: seq<Edge>, done: seq<string>, ordered: seq<Node>)
    requires EdgesOf(log, nodes) && |ordered| == |done|
    requires forall k :: 0 <= k < |done| ==> ordered[k] in nodes && ordered[k].id == done[k]
    requires forall k, e :: 0 <= k < |done| && e in log && e.to == done[k] ==> e.from in done[..k]
    ensures DepsFirst(ordered)
  {
    forall k, d | 0 <= k < |ordered| && d in ordered[k].dependsOn
      ensures d in Ids(ordered[..k])
    {
      assert Edge(d, done[k]) in log;
      var m :| 0 <= m < k && done[m] == d;
      assert ordered[m] in ordered[..k];
    }
  }

  /** An id that was never emitted waits for a dependency that was never emitted either. */
  lemma LeftoverWaits(nodes: seq<Node>, log: seq<Edge>, inDeg: map<string, int>, done: seq<string>, x: string)
    requires QueueInv(Ids(nodes), log, inDeg, done, []) && EdgesOf(log, nodes) && ClosedDeps(nodes)
    requires x in Ids(nodes) - ToSet(done)
    ensures HasDepIn(nodes, Ids(nodes) - ToSet(done), x)
  {
    assert x !in done + [];
    WaitingZero(log, x, ToSet(done));
    var e :| e in log && e.to == x && e.from !in ToSet(done);
    assert Depends(nodes, x, e.from);
  }

  lemma StuckMeansCycle(nodes: seq<Node>, log: seq<Edge>, inDeg: map<string, int>, done: seq<string>)
    returns (c: seq<string>)
    requires QueueInv(Ids(nodes), log, inDeg, done, []) && EdgesOf(log, nodes)
    requires DistinctIds(nodes) && ClosedDeps(nodes) && |done| != |nodes|
    ensures IsCycle(nodes, c)
  {
    var u := Ids(nodes) - ToSet(done);
    assert u != {} by {
      EmittedBound(Ids(nodes), log, inDeg, done, []);
      IdSeqSet(nodes);
      ToSetCardinality(done);
      assert Ids(nodes) == ToSet(done) + u;
    }
    forall x | x in u
      ensures HasDepIn(nodes, u, x)
    {
      LeftoverWaits(nodes, log, inDeg, done, x);
    }
    c := NoMinimalMeansCycle(nodes, u);
  }
}
