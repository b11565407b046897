/**
 `SelectCPUs` chooses the CPUs a command is pinned to.
 */
module Placement {
  import opened Collections
  import opened Topology

  datatype SelectError = UnknownStrategy | NodeTooSmall | NotEnough(available: nat)

  const SAME_NUMA := "same-numa"

  /** The list of the first node with that id, as `CPUsOnNode` finds it. */
  function NodeCpus(nodes: seq<NumaNode>, id: int): seq<int> {
    if nodes == [] then [] else if nodes[0].id == id then nodes[0].cpus else NodeCpus(nodes[1..], id)
  }

  /** Node `k` is the first with that id. */
  ghost predicate FirstWithId(nodes: seq<NumaNode>, id: int, k: int) {
    0 <= k < |nodes| && nodes[k].id == id && forall j :: 0 <= j < k ==> nodes[j].id != id
  }

  /** The list of the first node with that id, and nothing if no node has it. */
  lemma {:induction false} NodeCpusIs(nodes: seq<NumaNode>, id: int)
    ensures forall k :: FirstWithId(nodes, id, k) ==> NodeCpus(nodes, id) == nodes[k].cpus
    ensures (forall k :: 0 <= k < |nodes| ==> nodes[k].id != id) ==> NodeCpus(nodes, id) == []
    ensures (exists k :: 0 <= k < |nodes| && nodes[k].id == id) ==> exists k :: FirstWithId(nodes, id, k)
  {
    if nodes != [] {
      var rest := nodes[1..];
      NodeCpusIs(rest, id);
      if nodes[0].id == id {
        assert FirstWithId(nodes, id, 0);
      } else {
        forall k | FirstWithId(nodes, id, k)
          ensures NodeCpus(nodes, id) == nodes[k].cpus
        {
          assert FirstWithId(rest, id, k - 1);
        }
        if k :| 0 <= k < |nodes| && nodes[k].id == id {
          assert rest[k - 1].id == id;
          var m :| FirstWithId(rest, id, m);
          assert FirstWithId(nodes, id, m + 1);
        }
      }
    }
  }

  method CPUsOnNode(t: Machine, id: int) returns (r: seq<int>)
    ensures r == NodeCpus(t.numaNodes, id)
    ensures forall k :: FirstWithId(t.numaNodes, id, k) ==> r == t.numaNodes[k].cpus
    ensures (forall k :: 0 <= k < |t.numaNodes| ==> t.numaNodes[k].id != id) ==> r == []
  {
    NodeCpusIs(t.numaNodes, id);
    for i := 0 to |t.numaNodes|
      invariant NodeCpus(t.numaNodes, id) == NodeCpus(t.numaNodes[i..], id)
    {
      if t.numaNodes[i].id == id {
        return t.numaNodes[i].cpus;
      }
      assert t.numaNodes[i..][1..] == t.numaNodes[i + 1..];
    }
    return [];
  }

  /** The sorted node lists one after the other, in node list order. */
  ghost function Spread(nodes: seq<NumaNode>): seq<int> {
    if nodes == [] then [] else Spread(nodes[..|nodes| - 1]) + SortInts(nodes[|nodes| - 1].cpus)
  }

  /** Node `k` fits, no fitting node is larger, and no equally large one has a smaller id. */
  ghost predicate BestFit(nodes: seq<NumaNode>, want: int, k: int) {
    && 0 <= k < |nodes| && |nodes[k].cpus| >= want
    && forall j :: 0 <= j < |nodes| && |nodes[j].cpus| >= want ==>
         |nodes[j].cpus| < |nodes[k].cpus| || (|nodes[j].cpus| == |nodes[k].cpus| && nodes[k].id <= nodes[j].id)
  }

  ghost predicate SomeFits(nodes: seq<NumaNode>, want: int) {
    exists k :: 0 <= k < |nodes| && |nodes[k].cpus| >= want
  }

  datatype Cand = Cand(id: int, size: int, cpus: seq<int>)

  predicate CandLess(a: Cand, b: Cand) {
    if a.size != b.size then a.size > b.size else a.id < b.id
  }

  /** The single-node choice, the spill, or the shortage. */
  ghost predicate NodeChoice(nodes: seq<NumaNode>, want: int, r: Result<seq<int>, SelectError>)
    requires want > 0
  {
    if SomeFits(nodes, want) then
      exists k :: BestFit(nodes, want, k) && r == Ok(SortInts(nodes[k].cpus)[..want])
    else if |Spread(nodes)| >= want then
      r == Ok(SortInts(Spread(nodes)[..want]))
    else
      r == Err(NotEnough(|Spread(nodes)|))
  }

  /** What `SelectCPUs` returns, case by case. */
  ghost predicate Selection(t: Machine, want: int, numaPrefer: Option<int>, strategy: string, r: Result<seq<int>, SelectError>) {
    var all := SortInts(CpuIds(t.cpus));
    if want <= 0 || want >= |t.cpus| then r == Ok(all)
    else if strategy != "" && strategy != SAME_NUMA then r == Err(UnknownStrategy)
    else if t.numaNodes == [] then r == Ok(all[..want])
    else if numaPrefer.Some? then
      var cpus := NodeCpus(t.numaNodes, numaPrefer.value);
      if |cpus| < want then r == Err(NodeTooSmall) else r == Ok(SortInts(cpus)[..want])
    else NodeChoice(t.numaNodes, want, r)
  }

  method SelectCPUs(t: Machine, want: int, numaPrefer: Option<int>, strategy: string) returns (r: Result<seq<int>, SelectError>)
    ensures Selection(t, want, numaPrefer, strategy, r)
  {
    var ids := Ints(CpuIds(t.cpus));
    if want <= 0 || want >= |ids| {
      return Ok(ids);
    }
    if strategy != "" && strategy != SAME_NUMA {
      return Err(UnknownStrategy);
    }
    if |t.numaNodes| == 0 {
      return Ok(ids[..want]);
    }
    if numaPrefer.Some? {
      var cpus := CPUsOnNode(t, numaPrefer.value);
      cpus := Ints(cpus);
      if |cpus| < want {
        return Err(NodeTooSmall);
      }
      return Ok(cpus[..want]);
    }
    r := ChooseNodes(t.numaNodes, want);
  }

  method ChooseNodes(nodes: seq<NumaNode>, want: int) returns (r: Result<seq<int>, SelectError>)
    requires want > 0
    ensures NodeChoice(nodes, want, r)
  {
    var best := Largest(nodes, want);
    if best.Some? {
      return Ok(best.value[..want]);
    }
    var acc := Gather(nodes, want);
    ghost var taken := acc;
    acc := Ints(acc);
    if |acc| < want {
      return Err(NotEnough(|acc|));
    }
    assert taken == Spread(nodes)[..want] && acc[..want] == acc;
    return Ok(acc[..want]);
  }

  ghost predicate IsCandidate(c: Cand, nodes: seq<NumaNode>, n: int, want: int) {
    exists k :: 0 <= k < n <= |nodes| && |nodes[k].cpus| >= want && c == CandOf(nodes[k])
  }

  /** The candidates are the fitting nodes among the first `n`. */
  ghost predicate Candidates(cands: seq<Cand>, nodes: seq<NumaNode>, n: int, want: int) {
    && (forall c :: c in cands ==> IsCandidate(c, nodes, n, want))
    && (forall k :: 0 <= k < n <= |nodes| && |nodes[k].cpus| >= want ==> CandOf(nodes[k]) in cands)
  }

  /** No candidate comes before the first of the sorted list. */
  lemma FirstIsBest(cands: seq<Cand>, sorted: seq<Cand>, nodes: seq<NumaNode>, want: int) returns (k: int)
    requires Candidates(cands, nodes, |nodes|, want) && sorted != []
    requires multiset(sorted) == multiset(cands) && SortedBy(CandLess, sorted)
    ensures BestFit(nodes, want, k) && sorted[0].cpus == SortInts(nodes[k].cpus)
  {
    assert sorted[0] in multiset(cands);
    assert IsCandidate(sorted[0], nodes, |nodes|, want);
    k :| 0 <= k < |nodes| && |nodes[k].cpus| >= want && sorted[0] == CandOf(nodes[k]);
    forall j | 0 <= j < |nodes| && |nodes[j].cpus| >= want
      ensures !CandLess(CandOf(nodes[j]), CandOf(nodes[k]))
    {
      assert CandOf(nodes[j]) in multiset(sorted);
      var m :| 0 <= m < |sorted| && sorted[m] == CandOf(nodes[j]);
      assert m == 0 || !CandLess(sorted[m], sorted[0]);
    }
  }

  lemma NextCandidate(cands: seq<Cand>, nodes: seq<NumaNode>, i: nat, want: int)
    requires i < |nodes| && Candidates(cands, nodes, i, want)
    ensures Candidates(if |nodes[i].cpus| >= want then cands + [CandOf(nodes[i])] else cands, nodes, i + 1, want)
  {
    var all := if |nodes[i].cpus| >= want then cands + [CandOf(nodes[i])] else cands;
    forall c | c in all
      ensures IsCandidate(c, nodes, i + 1, want)
    {
      if c in cands {
        assert IsCandidate(c, nodes, i, want);
      }
    }
    assert |nodes[i].cpus| >= want ==> all[|cands|] == CandOf(nodes[i]);
  }

  /** The candidate list, sorted by size then id; the winner's sorted CPU list. */
  method Largest(nodes: seq<NumaNode>, want: int) returns (r: Option<seq<int>>)
    ensures r.None? <==> !SomeFits(nodes, want)
    ensures r.Some? ==> exists k :: BestFit(nodes, want, k) && r.value == SortInts(nodes[k].cpus)
  {
    var cands: seq<Cand> := [];
    for i := 0 to |nodes|
      invariant Candidates(cands, nodes, i, want)
    {
      NextCandidate(cands, nodes, i, want);
      var cp := Ints(nodes[i].cpus);
      if |cp| >= want {
        cands := cands + [Cand(nodes[i].id, |cp|, cp)];
      }
    }
    if |cands| == 0 {
      return None;
    }
    var sorted := SortSlice(cands, CandLess);
    ghost var k := FirstIsBest(cands, sorted, nodes, want);
    return Some(sorted[0].cpus);
  }

  ghost function CandOf(n: NumaNode): Cand {
    Cand(n.id, |n.cpus|, SortInts(n.cpus))
  }

  /** `for _, id := range cp`, stopping as soon as `want` ids are collected. */
  method AppendUpTo(before: seq<int>, cp: seq<int>, want: int) returns (acc: seq<int>)
    requires |before| < want
    ensures acc <= before + cp && |acc| <= want
    ensures |acc| < want ==> acc == before + cp
  {
    acc := before;
    var j := 0;
    while j < |cp| && |acc| < want
      invariant 0 <= j <= |cp| && |acc| <= want
      invariant acc == before + cp[..j]
    {
      assert cp[..j + 1] == cp[..j] + [cp[j]];
      acc := acc + [cp[j]];
      j := j + 1;
    }
    assert cp[..|cp|] == cp;
  }

  /** The spill: node after node until enough ids are collected. */
  method Gather(nodes: seq<NumaNode>, want: int) returns (acc: seq<int>)
    requires want > 0
    ensures acc <= Spread(nodes) && |acc| <= want
    ensures |acc| < want ==> acc == Spread(nodes)
  {
    acc := [];
    var i := 0;
    while i < |nodes|
      invariant 0 <= i <= |nodes|
      invariant acc == Spread(nodes[..i]) && |acc| < want
    {
      var cp := Ints(nodes[i].cpus);
      assert nodes[..i + 1][..i] == nodes[..i];
      acc := AppendUpTo(acc, cp, want);
      if |acc| >= want {
        SpreadPrefix(nodes, i + 1);
        return;
      }
      i := i + 1;
    }
    assert nodes[..i] == nodes;
  }

  lemma {:induction false} SpreadPrefix(nodes: seq<NumaNode>, i: nat)
    requires i <= |nodes|
    ensures Spread(nodes[..i]) <= Spread(nodes)
    decreases |nodes| - i
  {
    if i == |nodes| {
      assert nodes[..i] == nodes;
    } else {
      SpreadPrefix(nodes, i + 1);
      assert nodes[..i + 1][..i] == nodes[..i];
    }
  }
}
