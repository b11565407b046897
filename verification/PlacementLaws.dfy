/**
 What a caller of `SelectCPUs` may rely on, and how its choice meets the memory bind.
 */
module PlacementLaws {
  import opened Collections
  import opened Topology
  import opened Placement
  import opened NumaBind

  // Shape -----------------------------------------------------------------------------------

  /** A proper request that succeeds yields exactly `want` ids, sorted. */
  lemma SelectionShape(t: Machine, want: int, numaPrefer: Option<int>, strategy: string, r: Result<seq<int>, SelectError>)
    requires Selection(t, want, numaPrefer, strategy, r) && r.Ok?
    ensures Sorted(r.value)
    ensures |r.value| == if want <= 0 || want >= |t.cpus| then |t.cpus| else want
  {
  }

  ghost function TotalSize(nodes: seq<NumaNode>): nat {
    if nodes == [] then 0 else TotalSize(nodes[..|nodes| - 1]) + |nodes[|nodes| - 1].cpus|
  }

  lemma {:induction false} SpreadLength(nodes: seq<NumaNode>)
    ensures |Spread(nodes)| == TotalSize(nodes)
  {
    if nodes != [] {
      SpreadLength(nodes[..|nodes| - 1]);
    }
  }

  lemma {:induction false} LargeNodeLargeTotal(nodes: seq<NumaNode>, k: nat)
    requires k < |nodes|
    ensures |nodes[k].cpus| <= TotalSize(nodes)
  {
    if k < |nodes| - 1 {
      LargeNodeLargeTotal(nodes[..|nodes| - 1], k);
    }
  }

  /** Without a preference, a request fails exactly when all nodes together are too small. */
  lemma FailsIffTooFew(t: Machine, want: int, strategy: string, r: Result<seq<int>, SelectError>)
    requires Selection(t, want, None, strategy, r) && strategy in {"", SAME_NUMA}
    requires 0 < want < |t.cpus| && t.numaNodes != []
    ensures r.Err? <==> TotalSize(t.numaNodes) < want
  {
    SpreadLength(t.numaNodes);
    if SomeFits(t.numaNodes, want) {
      var k :| 0 <= k < |t.numaNodes| && |t.numaNodes[k].cpus| >= want;
      LargeNodeLargeTotal(t.numaNodes, k);
    }
  }

  // Which CPUs ------------------------------------------------------------------------------

  /** `r` is sorted and consists of the `n` smallest entries of `list`. */
  ghost predicate Smallest(r: seq<int>, list: seq<int>, n: int) {
    && Sorted(r) && |r| == n && multiset(r) <= multiset(list)
    && forall x, y :: x in r && y in multiset(list) - multiset(r) ==> x <= y
  }

  lemma SortedPrefixIsSmallest(list: seq<int>, n: nat)
    requires n <= |list|
    ensures Smallest(SortInts(list)[..n], list, n)
  {
    var s := SortInts(list);
    var a, b := s[..n], s[n..];
    Rejoin(s, n);
    assert multiset(list) == multiset(a) + multiset(b);
    forall x, y | x in a && y in multiset(list) - multiset(a)
      ensures x <= y
    {
      assert y in multiset(b);
      var i :| 0 <= i < n && s[i] == x;
      var j :| 0 <= j < |b| && b[j] == y;
      assert s[n + j] == y;
    }
  }

  /** There is only one such choice. */
  lemma SmallestUnique(r: seq<int>, list: seq<int>, n: nat)
    requires Smallest(r, list, n) && n <= |list|
    ensures r == SortInts(list)[..n]
  {
    var rest := multiset(list) - multiset(r);
    assert multiset(list) == multiset(r) + rest;
    var tail := AnyOrder(rest);
    var all := r + SortInts(tail);
    assert multiset(all) == multiset(list);
    forall i, j | 0 <= i < j < |all|
      ensures all[i] <= all[j]
    {
      if i < |r| <= j {
        assert all[j] in multiset(SortInts(tail));
        assert all[i] in r && all[j] in rest;
      }
    }
    SortedUnique(all, SortInts(list));
    assert all[..n] == r;
  }

  ghost function SomeMember(m: multiset<int>): (x: int)
    requires m != multiset{}
    ensures x in m
  {
    assert exists x :: x in m by {
      assert (forall x :: x !in m) ==> m == multiset{};
    }
    var x :| x in m;
    x
  }

  lemma {:induction false} AnyOrder(m: multiset<int>) returns (s: seq<int>)
    ensures multiset(s) == m
  {
    if m == multiset{} {
      return [];
    }
    var x := SomeMember(m);
    s := AnyOrder(m - multiset{x});
    s := s + [x];
  }

  /** All CPUs for a request of none or too many; the smallest ones on a machine without nodes; an unknown strategy is refused. */
  lemma PlainSelection(t: Machine, want: int, numaPrefer: Option<int>, strategy: string, r: Result<seq<int>, SelectError>)
    requires Selection(t, want, numaPrefer, strategy, r)
    ensures want <= 0 || want >= |t.cpus| ==> r.Ok? && Sorted(r.value) && multiset(r.value) == multiset(CpuIds(t.cpus))
    ensures 0 < want < |t.cpus| && strategy != "" && strategy != "same-numa" ==> r == Err(UnknownStrategy)
    ensures 0 < want < |t.cpus| && (strategy == "" || strategy == "same-numa") && t.numaNodes == [] ==>
              r.Ok? && Smallest(r.value, CpuIds(t.cpus), want)
  {
    if 0 < want < |t.cpus| {
      SortedPrefixIsSmallest(CpuIds(t.cpus), want);
    }
  }

  /** A preferred node that has that id and enough CPUs gives its smallest ones; any other preference fails. */
  lemma PreferenceIff(t: Machine, want: int, prefer: int, strategy: string, r: Result<seq<int>, SelectError>)
    requires Selection(t, want, Some(prefer), strategy, r) && (strategy == "" || strategy == "same-numa")
    requires 0 < want < |t.cpus| && t.numaNodes != []
    ensures forall k :: FirstWithId(t.numaNodes, prefer, k) ==>
              if |t.numaNodes[k].cpus| >= want then r.Ok? && Smallest(r.value, t.numaNodes[k].cpus, want) else r == Err(NodeTooSmall)
    ensures (forall k :: 0 <= k < |t.numaNodes| ==> t.numaNodes[k].id != prefer) ==> r == Err(NodeTooSmall)
  {
    NodeCpusIs(t.numaNodes, prefer);
    var list := NodeCpus(t.numaNodes, prefer);
    if |list| >= want {
      SortedPrefixIsSmallest(list, want);
    }
  }

  /** No node has more CPUs, and none with as many has a lower id. */
  ghost predicate LargestThenLowest(nodes: seq<NumaNode>, k: int) {
    && 0 <= k < |nodes|
    && forall j :: 0 <= j < |nodes| ==>
         |nodes[j].cpus| <= |nodes[k].cpus| && (|nodes[j].cpus| == |nodes[k].cpus| ==> nodes[k].id <= nodes[j].id)
  }

  /** Without a preference: the smallest CPUs of a best-fitting node; else as many as wanted spilled; else the shortage. */
  lemma UnpreferredSelection(t: Machine, want: int, strategy: string, r: Result<seq<int>, SelectError>)
    requires Selection(t, want, None, strategy, r) && (strategy == "" || strategy == "same-numa")
    requires 0 < want < |t.cpus| && t.numaNodes != []
    ensures (exists k :: 0 <= k < |t.numaNodes| && |t.numaNodes[k].cpus| >= want) ==>
              r.Ok? && exists k :: LargestThenLowest(t.numaNodes, k) && Smallest(r.value, t.numaNodes[k].cpus, want)
    ensures (forall k :: 0 <= k < |t.numaNodes| ==> |t.numaNodes[k].cpus| < want) && TotalSize(t.numaNodes) >= want ==>
              r.Ok? && Sorted(r.value) && want <= |Spread(t.numaNodes)| && multiset(r.value) == multiset(Spread(t.numaNodes)[..want])
    ensures TotalSize(t.numaNodes) < want ==> r == Err(NotEnough(TotalSize(t.numaNodes)))
  {
    SpreadLength(t.numaNodes);
    if SomeFits(t.numaNodes, want) {
      var k :| BestFit(t.numaNodes, want, k) && r == Ok(SortInts(t.numaNodes[k].cpus)[..want]);
      SortedPrefixIsSmallest(t.numaNodes[k].cpus, want);
      LargeNodeLargeTotal(t.numaNodes, k);
      assert LargestThenLowest(t.numaNodes, k);
    }
    assert (exists k :: 0 <= k < |t.numaNodes| && |t.numaNodes[k].cpus| >= want) <==> SomeFits(t.numaNodes, want);
  }

  // Members -----------------------------------------------------------------------------------

  ghost predicate InSomeNode(nodes: seq<NumaNode>, x: int) {
    exists k :: 0 <= k < |nodes| && x in nodes[k].cpus
  }

  lemma InSomeNodeSnoc(front: seq<NumaNode>, last: NumaNode, x: int)
    ensures InSomeNode(front + [last], x) <==> InSomeNode(front, x) || x in last.cpus
  {
    var nodes := front + [last];
    assert nodes[|front|] == last;
    assert forall k :: 0 <= k < |front| ==> nodes[k] == front[k];
  }

  lemma {:induction false} SpreadMembers(nodes: seq<NumaNode>, x: int)
    ensures x in Spread(nodes) <==> InSomeNode(nodes, x)
  {
    if nodes != [] {
      var front, last := nodes[..|nodes| - 1], nodes[|nodes| - 1];
      SpreadMembers(front, x);
      SortIntsMembers(last.cpus);
      assert nodes == front + [last];
      InSomeNodeSnoc(front, last, x);
    }
  }

  /** Nodes list pairwise different ids, each at most once. */
  ghost predicate DisjointNodes(nodes: seq<NumaNode>) {
    && (forall k :: 0 <= k < |nodes| ==> Distinct(nodes[k].cpus))
    && (forall k, m, x :: 0 <= k < m < |nodes| && x in nodes[k].cpus ==> x !in nodes[m].cpus)
  }

  lemma {:induction false} SpreadDistinct(nodes: seq<NumaNode>)
    requires DisjointNodes(nodes)
    ensures Distinct(Spread(nodes))
  {
    if nodes != [] {
      var front, last := nodes[..|nodes| - 1], SortInts(nodes[|nodes| - 1].cpus);
      assert DisjointNodes(front) by {
        assert forall k :: 0 <= k < |front| ==> front[k] == nodes[k];
      }
      SpreadDistinct(front);
      SortDistinct(nodes[|nodes| - 1].cpus);
      SortIntsMembers(nodes[|nodes| - 1].cpus);
      forall i, j | 0 <= i < |Spread(front)| && 0 <= j < |last|
        ensures Spread(front)[i] != last[j]
      {
        var x := Spread(front)[i];
        SpreadMembers(front, x);
        var k :| 0 <= k < |front| && x in front[k].cpus;
        assert x in nodes[k].cpus && last[j] in last;
      }
    }
  }

  lemma PrefixOfSorted(s: seq<int>, n: nat)
    requires Distinct(s) && n <= |s|
    ensures Distinct(SortInts(s)[..n]) && Distinct(SortInts(s[..n]))
    ensures forall x :: x in SortInts(s)[..n] ==> x in s
    ensures forall x :: x in SortInts(s[..n]) ==> x in s
  {
    SortDistinct(s);
    SortDistinct(s[..n]);
    SortIntsMembers(s);
    SortIntsMembers(s[..n]);
  }

  /** Disjoint, duplicate-free node lists give duplicate-free selections. */
  lemma ChoiceDistinct(nodes: seq<NumaNode>, want: int, r: Result<seq<int>, SelectError>)
    requires want > 0 && DisjointNodes(nodes) && NodeChoice(nodes, want, r) && r.Ok?
    ensures Distinct(r.value)
    ensures forall x :: x in r.value ==> InSomeNode(nodes, x)
  {
    if SomeFits(nodes, want) {
      var k :| BestFit(nodes, want, k) && r == Ok(SortInts(nodes[k].cpus)[..want]);
      PrefixOfSorted(nodes[k].cpus, want);
    } else {
      SpreadDistinct(nodes);
      PrefixOfSorted(Spread(nodes), want);
      forall x | x in r.value
        ensures InSomeNode(nodes, x)
      {
        SpreadMembers(nodes, x);
      }
    }
  }

  // Consistent machines ----------------------------------------------------------------------------

  lemma OnNodeUnique(t: Machine, x: int, a: int, b: int)
    requires UniqueCpuIds(t) && OnNode(t, x, a) && OnNode(t, x, b)
    ensures a == b
  {
    var c :| c in t.cpus && c.id == x && c.numaNode == a;
    var d :| d in t.cpus && d.id == x && d.numaNode == b;
    var i :| 0 <= i < |t.cpus| && t.cpus[i] == c;
    var j :| 0 <= j < |t.cpus| && t.cpus[j] == d;
    assert i == j;
  }

  lemma ConsistentIsDisjoint(t: Machine)
    requires Consistent(t)
    ensures DisjointNodes(t.numaNodes)
  {
    forall k, m, x | 0 <= k < m < |t.numaNodes| && x in t.numaNodes[k].cpus
      ensures x !in t.numaNodes[m].cpus
    {
      if x in t.numaNodes[m].cpus {
        OnNodeUnique(t, x, t.numaNodes[k].id, t.numaNodes[m].id);
      }
    }
  }

  lemma KnownIfOnNode(t: Machine, x: int, node: int)
    requires OnNode(t, x, node)
    ensures x in CpuIds(t.cpus)
  {
    var c :| c in t.cpus && c.id == x && c.numaNode == node;
    var i :| 0 <= i < |t.cpus| && t.cpus[i] == c;
    assert CpuIds(t.cpus)[i] == x;
  }

  /** On a consistent machine every selection consists of distinct, known CPUs, whichever case produced it. */
  lemma SelectionSound(t: Machine, want: int, numaPrefer: Option<int>, strategy: string, r: Result<seq<int>, SelectError>)
    requires Consistent(t) && Selection(t, want, numaPrefer, strategy, r) && r.Ok?
    ensures Distinct(r.value)
    ensures forall x :: x in r.value ==> x in CpuIds(t.cpus)
  {
    var all := CpuIds(t.cpus);
    if want <= 0 || want >= |t.cpus| {
      assert SortInts(all)[..|all|] == SortInts(all);
      PrefixOfSorted(all, |all|);
    } else if t.numaNodes == [] {
      PrefixOfSorted(all, want);
    } else {
      NodeSelectionSound(t, want, numaPrefer, strategy, r);
    }
  }

  lemma NodeSelectionSound(t: Machine, want: int, numaPrefer: Option<int>, strategy: string, r: Result<seq<int>, SelectError>)
    requires Consistent(t) && Selection(t, want, numaPrefer, strategy, r) && r.Ok?
    requires 0 < want < |t.cpus| && t.numaNodes != []
    ensures Distinct(r.value)
    ensures forall x :: x in r.value ==> x in CpuIds(t.cpus)
  {
    ConsistentIsDisjoint(t);
    if numaPrefer.Some? {
      var k := NodeIndex(t.numaNodes, numaPrefer.value);
      PrefixOfSorted(t.numaNodes[k].cpus, want);
    } else {
      ChoiceDistinct(t.numaNodes, want, r);
    }
    forall x | x in r.value
      ensures x in CpuIds(t.cpus)
    {
      var k :| 0 <= k < |t.numaNodes| && x in t.numaNodes[k].cpus;
      assert t.numaNodes[k] in t.numaNodes;
      KnownIfOnNode(t, x, t.numaNodes[k].id);
    }
  }

  /** The ids all belong to the list of one node. */
  ghost predicate Within(nodes: seq<NumaNode>, ids: seq<int>, k: int) {
    0 <= k < |nodes| && forall x :: x in ids ==> x in nodes[k].cpus
  }

  lemma DistinctWithinSmall(ids: seq<int>, list: seq<int>)
    requires Distinct(ids) && forall x :: x in ids ==> x in list
    ensures |ids| <= |list|
  {
    ToSetCardinality(ids);
    ToSetCardinality(list);
    SubsetCardinality(ToSet(ids), ToSet(list));
  }

  /** With disjoint lists an unconstrained choice stays on one node exactly when one can hold it. */
  lemma SingleNodeIffFits(nodes: seq<NumaNode>, want: int, r: Result<seq<int>, SelectError>)
    requires want > 0 && DisjointNodes(nodes) && NodeChoice(nodes, want, r) && r.Ok?
    ensures (exists k :: Within(nodes, r.value, k)) <==> SomeFits(nodes, want)
  {
    ChoiceDistinct(nodes, want, r);
    if SomeFits(nodes, want) {
      var k :| BestFit(nodes, want, k) && r == Ok(SortInts(nodes[k].cpus)[..want]);
      SortIntsMembers(nodes[k].cpus);
      assert Within(nodes, r.value, k);
    } else if k :| Within(nodes, r.value, k) {
      DistinctWithinSmall(r.value, nodes[k].cpus);
      assert false;
    }
  }

  /** Ids taken from one node of a consistent machine are bound to exactly that node, and to no other. */
  lemma OneNodeIsPrimary(t: Machine, ids: seq<int>, k: int, node: int)
    requires Consistent(t) && ids != [] && Within(t.numaNodes, ids, k)
    ensures Verdict(t.cpus, ToSet(ids), node) <==> node == t.numaNodes[k].id
  {
    var id := t.numaNodes[k].id;
    assert t.numaNodes[k] in t.numaNodes;
    VerdictMeansAllOnNode(t, ids, id);
    VerdictMeansAllOnNode(t, ids, node);
    if Verdict(t.cpus, ToSet(ids), node) {
      assert AllOn(t.cpus, ToSet(ids), id) && OnNode(t, ids[0], node);
    }
  }

  /** A preferred node that is honoured is the node the memory is bound to. */
  lemma PreferredIsPrimary(t: Machine, want: int, prefer: int, strategy: string, r: Result<seq<int>, SelectError>, node: int)
    requires Consistent(t) && Selection(t, want, Some(prefer), strategy, r) && r.Ok?
    requires 0 < want < |t.cpus| && t.numaNodes != []
    ensures Verdict(t.cpus, ToSet(r.value), node) <==> node == prefer
  {
    var k := NodeIndex(t.numaNodes, prefer);
    SortIntsMembers(t.numaNodes[k].cpus);
    OneNodeIsPrimary(t, r.value, k, node);
  }

  lemma {:induction false} NodeIndex(nodes: seq<NumaNode>, id: int) returns (k: int)
    requires NodeCpus(nodes, id) != []
    ensures 0 <= k < |nodes| && nodes[k].id == id && NodeCpus(nodes, id) == nodes[k].cpus
  {
    if nodes[0].id == id {
      return 0;
    }
    k := NodeIndex(nodes[1..], id);
    k := k + 1;
  }

  /** A selection that fits one node is bound to the best-fitting node. */
  lemma BestFitIsPrimary(t: Machine, want: int, strategy: string, r: Result<seq<int>, SelectError>) returns (k: int)
    requires Consistent(t) && Selection(t, want, None, strategy, r) && r.Ok?
    requires 0 < want < |t.cpus| && SomeFits(t.numaNodes, want)
    ensures BestFit(t.numaNodes, want, k)
    ensures forall node :: Verdict(t.cpus, ToSet(r.value), node) <==> node == t.numaNodes[k].id
  {
    k :| BestFit(t.numaNodes, want, k) && r == Ok(SortInts(t.numaNodes[k].cpus)[..want]);
    SortIntsMembers(t.numaNodes[k].cpus);
    forall node: int
      ensures Verdict(t.cpus, ToSet(r.value), node) <==> node == t.numaNodes[k].id
    {
      OneNodeIsPrimary(t, r.value, k, node);
    }
  }
}
