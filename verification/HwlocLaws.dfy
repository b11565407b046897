/**
 The machine built from hwloc records: its node lists partition the CPUs of known node, and it
 is consistent exactly when the processing units are numbered distinctly.
 */
module HwlocLaws {
  import opened Collections
  import opened Topology
  import opened Hwloc
  import Placement
  import PlacementLaws
  import NumaBind
  import SpillOrder

  // Partition ------------------------------------------------------------------------------------

  predicate NodeKnown(c: Cpu) {
    c.numaNode >= 0
  }

  /** Ids of the CPUs whose NUMA node is known. */
  function KnownIds(cpus: seq<Cpu>): seq<int> {
    IdsWhere(cpus, NodeKnown)
  }

  ghost function Union(nodes: seq<NumaNode>): multiset<int> {
    if nodes == [] then multiset{} else Union(nodes[..|nodes| - 1]) + multiset(nodes[|nodes| - 1].cpus)
  }

  lemma {:induction false} UnionIsGrouped(cpus: seq<Cpu>, nodes: seq<NumaNode>)
    requires forall i :: 0 <= i < |nodes| ==> nodes[i].cpus == SortInts(IdsOn(cpus, nodes[i].id))
    ensures Union(nodes) == Grouped(cpus, NodeOf, NodeIds(nodes))
  {
    if nodes != [] {
      var front := nodes[..|nodes| - 1];
      var last := nodes[|nodes| - 1];
      UnionIsGrouped(cpus, front);
      assert NodeIds(nodes)[..|nodes| - 1] == NodeIds(front);
      assert multiset(last.cpus) == multiset(IdsBy(cpus, NodeOf, last.id));
    }
  }

  /** Every CPU of known node is in exactly one node list, as often as it is listed at all. */
  lemma NodesPartition(t: Machine)
    requires NodesOf(t.numaNodes, t.cpus)
    ensures Union(t.numaNodes) == multiset(KnownIds(t.cpus))
  {
    var ids := NodeIds(t.numaNodes);
    forall k | 0 <= k < |t.cpus|
      ensures t.cpus[k].numaNode >= 0 <==> t.cpus[k].numaNode in ids
    {
      IdsByMembers(t.cpus, NodeOf, t.cpus[k].numaNode, t.cpus[k].id);
    }
    UnionIsGrouped(t.cpus, t.numaNodes);
    GroupedIsWhere(t.cpus, NodeOf, ids, NodeKnown);
  }

  // Consistency -----------------------------------------------------------------------------------

  lemma {:induction false} IdsOnDistinct(cpus: seq<Cpu>, node: int)
    requires forall i, j :: 0 <= i < j < |cpus| ==> cpus[i].id != cpus[j].id
    ensures Distinct(IdsOn(cpus, node))
  {
    if cpus != [] {
      var front, c := cpus[..|cpus| - 1], cpus[|cpus| - 1];
      IdsOnDistinct(front, node);
      IdsByMembers(front, NodeOf, node, c.id);
      assert forall k :: 0 <= k < |front| ==> front[k] == cpus[k];
    }
  }

  lemma BuiltIsConsistent(t: Machine)
    requires NodesOf(t.numaNodes, t.cpus)
    ensures Consistent(t) <==> UniqueCpuIds(t)
  {
    if UniqueCpuIds(t) {
      forall i, j | 0 <= i < j < |t.numaNodes|
        ensures t.numaNodes[i].id != t.numaNodes[j].id
      {
        assert NodeIds(t.numaNodes)[i] < NodeIds(t.numaNodes)[j];
      }
      forall n | n in t.numaNodes
        ensures 0 <= n.id && Distinct(n.cpus) && forall x :: x in n.cpus ==> OnNode(t, x, n.id)
      {
        NodeIsSound(t, n);
      }
    }
  }

  lemma NodeIsSound(t: Machine, n: NumaNode)
    requires NodesOf(t.numaNodes, t.cpus) && UniqueCpuIds(t) && n in t.numaNodes
    ensures 0 <= n.id && Distinct(n.cpus) && forall x :: x in n.cpus ==> OnNode(t, x, n.id)
  {
    var i :| 0 <= i < |t.numaNodes| && t.numaNodes[i] == n;
    assert NodeIds(t.numaNodes)[i] == n.id;
    IdsOnDistinct(t.cpus, n.id);
    SortDistinct(IdsOn(t.cpus, n.id));
    SortIntsMembers(IdsOn(t.cpus, n.id));
    forall x | x in n.cpus
      ensures OnNode(t, x, n.id)
    {
      IdsByMembers(t.cpus, NodeOf, n.id, x);
      var k :| 0 <= k < |t.cpus| && t.cpus[k].id == x && t.cpus[k].numaNode == n.id;
      assert t.cpus[k] in t.cpus;
    }
  }

  function PuSeq(recs: seq<PuRec>): (r: seq<int>)
    ensures |r| == |recs| && forall k :: 0 <= k < |recs| ==> r[k] == recs[k].pu
  {
    seq(|recs|, k requires 0 <= k < |recs| => recs[k].pu)
  }

  lemma PuMembers(a: seq<PuRec>, b: seq<PuRec>)
    requires multiset(a) == multiset(b)
    ensures ToSet(PuSeq(a)) <= ToSet(PuSeq(b))
  {
    forall x | x in PuSeq(a)
      ensures x in PuSeq(b)
    {
      var i :| 0 <= i < |a| && PuSeq(a)[i] == x;
      assert a[i] in multiset(b);
      var j :| 0 <= j < |b| && b[j] == a[i];
      assert PuSeq(b)[j] == x;
    }
  }

  /** The machine read from hwloc is consistent exactly when no two units share an index. */
  lemma ConsistentIffDistinctPus(recs: seq<PuRec>, sorted: seq<PuRec>, t: Machine)
    requires multiset(sorted) == multiset(recs) && NodesOf(t.numaNodes, t.cpus)
    requires |t.cpus| == |sorted| && forall k :: 0 <= k < |sorted| ==> t.cpus[k] == CpuOf(sorted[k])
    ensures Consistent(t) <==> Distinct(PuSeq(recs))
  {
    BuiltIsConsistent(t);
    PuMembers(sorted, recs);
    PuMembers(recs, sorted);
    assert ToSet(PuSeq(sorted)) == ToSet(PuSeq(recs));
    assert |sorted| == |multiset(sorted)| == |recs|;
    ToSetCardinality(PuSeq(sorted));
    ToSetCardinality(PuSeq(recs));
    assert UniqueCpuIds(t) <==> Distinct(PuSeq(sorted)) by {
      assert forall k :: 0 <= k < |sorted| ==> t.cpus[k].id == PuSeq(sorted)[k];
    }
  }

  // The whole import --------------------------------------------------------------------------------

  /** The machine's CPUs are the units of the document, sorted by index, and its nodes list them. */
  ghost predicate ReadFrom(t: Machine, roots: seq<Obj>) {
    && NodesOf(t.numaNodes, t.cpus)
    && exists sorted :: IsSorting(sorted, RecordsAt(UnitsOf(roots)), t.cpus)
  }

  ghost predicate IsSorting(sorted: seq<PuRec>, recs: seq<PuRec>, cpus: seq<Cpu>) {
    && multiset(sorted) == multiset(recs) && SortedBy(ByPu, sorted)
    && |cpus| == |sorted| && forall k :: 0 <= k < |sorted| ==> cpus[k] == CpuOf(sorted[k])
  }

  /** `TopologyFromXML` from the decoded document on: fails exactly when no indexed unit is in it. */
  method TopologyFromDocument(roots: seq<Obj>) returns (r: Option<Machine>)
    ensures r.None? <==> IndicesOf(roots, |roots|) == []
    ensures r.Some? ==> ReadFrom(r.value, roots)
  {
    var recs := Records(roots);
    RecordIndices(roots);
    ghost var sorted;
    r, sorted := TopologyFromRecords(recs);
    if r.Some? {
      assert IsSorting(sorted, recs, r.value.cpus);
    }
  }

  /** The indices of the indexed units of a tree, in document order. */
  ghost function Indices(o: Obj): seq<int>
    decreases o, 0
  {
    (if IsPu(o) then [o.osIndex.value] else []) + IndicesOf(o.children, |o.children|)
  }

  ghost function IndicesOf(os: seq<Obj>, n: nat): seq<int>
    requires n <= |os|
    decreases os, n
  {
    if n == 0 then [] else IndicesOf(os, n - 1) + Indices(os[n - 1])
  }

  lemma PuSeqConcat(a: seq<PuRec>, b: seq<PuRec>)
    ensures PuSeq(a + b) == PuSeq(a) + PuSeq(b)
  {
  }

  lemma {:induction false} PlaceIndices(o: Obj, above: Place, k: Counter)
    ensures PuSeq(RecordsAt(Places(o, above, k))) == Indices(o)
    decreases o, 0
  {
    var n, at := |o.children|, Below(above, o, k);
    var own, below := PlaceHere(o, above, k), PlacesOf(o.children, n, at, Passed(o, k));
    ChildIndices(o.children, n, at, Passed(o, k));
    RecordsConcat(own, below);
    PuSeqConcat(RecordsAt(own), RecordsAt(below));
    assert PuSeq(RecordsAt(own)) == if IsPu(o) then [o.osIndex.value] else [];
  }

  lemma {:induction false} ChildIndices(os: seq<Obj>, n: nat, above: Place, k: Counter)
    requires n <= |os|
    ensures PuSeq(RecordsAt(PlacesOf(os, n, above, k))) == IndicesOf(os, n)
    decreases os, n
  {
    if n > 0 {
      var before, last := PlacesOf(os, n - 1, above, k), Places(os[n - 1], above, NextCoreOf(os, n - 1, k));
      ChildIndices(os, n - 1, above, k);
      PlaceIndices(os[n - 1], above, NextCoreOf(os, n - 1, k));
      RecordsConcat(before, last);
      PuSeqConcat(RecordsAt(before), RecordsAt(last));
    }
  }

  lemma RecordIndices(roots: seq<Obj>)
    ensures PuSeq(RecordsAt(UnitsOf(roots))) == IndicesOf(roots, |roots|)
  {
    ChildIndices(roots, |roots|, ROOT, START);
  }

  /** The imported machine is consistent exactly when the indexed units of the document have distinct indices. */
  lemma ImportConsistentIff(roots: seq<Obj>, t: Machine)
    requires ReadFrom(t, roots)
    ensures Consistent(t) <==> Distinct(IndicesOf(roots, |roots|))
  {
    var recs := RecordsAt(UnitsOf(roots));
    var sorted :| IsSorting(sorted, recs, t.cpus);
    RecordIndices(roots);
    ConsistentIffDistinctPus(recs, sorted, t);
  }

  /** From distinct units to the memory bind: a selection that fits a node is bound to that node. */
  lemma HwlocSelectionBinds(t: Machine, want: int, strategy: string, r: Result<seq<int>, Placement.SelectError>) returns (k: int)
    requires NodesOf(t.numaNodes, t.cpus) && UniqueCpuIds(t)
    requires Placement.Selection(t, want, None, strategy, r) && r.Ok?
    requires 0 < want < |t.cpus| && Placement.SomeFits(t.numaNodes, want)
    ensures Placement.BestFit(t.numaNodes, want, k)
    ensures forall node :: NumaBind.Verdict(t.cpus, ToSet(r.value), node) <==> node == t.numaNodes[k].id
  {
    BuiltIsConsistent(t);
    k := PlacementLaws.BestFitIsPrimary(t, want, strategy, r);
  }

  /** A machine read from hwloc lists its nodes by id, so its spill is the documented one. */
  lemma HwlocSpillsInIdOrder(t: Machine, want: int, strategy: string, r: Result<seq<int>, Placement.SelectError>)
    requires NodesOf(t.numaNodes, t.cpus)
    requires Placement.Selection(t, want, None, strategy, r) && SpillOrder.Spills(t, want, strategy)
    ensures want <= |Placement.Spread(t.numaNodes)| && SpillOrder.InIdOrder(t.numaNodes, t.numaNodes)
    ensures r == Ok(SpillOrder.Spill(t.numaNodes, want))
  {
    SpillOrder.SortedNodesSpillAsDocumented(t, want, strategy, r, t.numaNodes);
  }
}
